/** The average CPU frequency over all cores. Frequencies are in kilohertz. */
module Frequency {
  import opened Permutations
  import opened Wrappers

  const MAX: nat := 0xffff_ffff_ffff_ffff

  type U64 = n: int | 0 <= n <= MAX

  datatype Reading = Reading(current: U64, min: Option<U64>, max: Option<U64>)

  /** Addition of unsigned 64-bit numbers, checked. */
  function Plus(a: U64, b: U64): Outcome<U64> {
    if a + b > MAX then Panic else Ok(a + b)
  }

  function PlusOption(a: Option<U64>, b: Option<U64>): Outcome<Option<U64>> {
    match (a, b)
    case (Some(left), Some(right)) => (var sum :- Plus(left, right); Ok(Some(sum)))
    case (Some(left), None) => Ok(Some(left))
    case (None, Some(right)) => Ok(Some(right))
    case (None, None) => Ok(None)
  }

  function Add(a: Reading, b: Reading): Outcome<Reading> {
    var current :- Plus(a.current, b.current);
    var min :- PlusOption(a.min, b.min);
    var max :- PlusOption(a.max, b.max);
    Ok(Reading(current, min, max))
  }

  function Quotient(total: U64, amount: nat): (q: U64)
    requires amount > 0
    ensures q == total / amount
  {
    assert total / amount <= total;
    total / amount
  }

  function Divide(acc: Reading, amount: nat): Reading
    requires amount > 0
  {
    Reading(Quotient(acc.current, amount),
            if acc.min.Some? then Some(Quotient(acc.min.value, amount)) else None,
            if acc.max.Some? then Some(Quotient(acc.max.value, amount)) else None)
  }

  /** Each reading is the outcome of reading one core; the first error is returned. */
  method Average(readings: seq<Outcome<Reading>>) returns (r: Outcome<Reading>)
    ensures r == AverageOf(Reading(0, None, None), 0, readings)
  {
    var acc := Reading(0, None, None);
    var amount: nat := 0;
    ghost var left := readings;
    for i := 0 to |readings|
      invariant left == readings[i..]
      invariant AverageOf(acc, amount, left) == AverageOf(Reading(0, None, None), 0, readings)
    {
      var freq := readings[i];
      left := left[1..];
      if !freq.Ok? {
        return freq;
      }
      acc :- Add(acc, freq.value);
      amount := amount + 1;
    }
    if amount == 0 {
      return Err(MissingData);
    }
    return Ok(Divide(acc, amount));
  }

  /** The loop from any accumulator on. */
  function AverageOf(acc: Reading, amount: nat, readings: seq<Outcome<Reading>>): Outcome<Reading>
    decreases |readings|
  {
    if readings == [] then
      if amount == 0 then Err(MissingData)
      else Ok(Divide(acc, amount))
    else if !readings[0].Ok? then readings[0]
    else
      var next :- Add(acc, readings[0].value);
      AverageOf(next, amount + 1, readings[1..])
  }

  // ----- the average in terms of plain sums -----

  /** Sums over all cores, in unbounded numbers; a bound that is not reported adds nothing. */
  datatype Sums = Sums(current: nat, min: nat, max: nat) {
    predicate Fit() {
      current <= 18446744073709551615 && min <= 18446744073709551615 && max <= 18446744073709551615
    }
  }

  function OrZero(n: Option<U64>): nat {
    if n.Some? then n.value else 0
  }

  function Plus3(r: Reading, sums: Sums): Sums {
    Sums(r.current + sums.current, OrZero(r.min) + sums.min, OrZero(r.max) + sums.max)
  }

  function SumsOf(rs: seq<Reading>): Sums {
    if rs == [] then Sums(0, 0, 0) else Plus3(rs[0], SumsOf(rs[1..]))
  }

  function Good(rs: seq<Reading>): seq<Outcome<Reading>> {
    seq(|rs|, i requires 0 <= i < |rs| => Ok(rs[i]))
  }

  ghost predicate SomeMin(rs: seq<Reading>) {
    exists r <- rs :: r.min.Some?
  }

  ghost predicate SomeMax(rs: seq<Reading>) {
    exists r <- rs :: r.max.Some?
  }

  /** The sums divided by the number of cores; a bound is there if any core reports it. */
  ghost function Mean(sums: Sums, someMin: bool, someMax: bool, n: nat): Outcome<Reading>
    requires n > 0
  {
    if !sums.Fit() then Panic else
      Ok(Reading(Quotient(sums.current, n),
                 if someMin then Some(Quotient(sums.min, n)) else None,
                 if someMax then Some(Quotient(sums.max, n)) else None))
  }

  lemma SomeStep(rs: seq<Reading>)
    requires rs != []
    ensures SomeMin(rs) <==> rs[0].min.Some? || SomeMin(rs[1..])
    ensures SomeMax(rs) <==> rs[0].max.Some? || SomeMax(rs[1..])
  {
    assert forall r :: r in rs <==> r == rs[0] || r in rs[1..];
  }

  /** Adding two readings adds what they say, and panics only when the sums cannot fit any more. */
  lemma AddMeaning(acc: Reading, r: Reading, sums: Sums)
    ensures Add(acc, r).Ok? ==>
              && Plus3(Add(acc, r).value, sums) == Plus3(acc, Plus3(r, sums))
              && (Add(acc, r).value.min.Some? <==> acc.min.Some? || r.min.Some?)
              && (Add(acc, r).value.max.Some? <==> acc.max.Some? || r.max.Some?)
    ensures !Add(acc, r).Ok? ==> Add(acc, r) == Panic && !Plus3(acc, Plus3(r, sums)).Fit()
  {
  }

  /** The loop on readings without an error, from any accumulator on. */
  lemma {:induction false} LoopMeaning(acc: Reading, amount: nat, rs: seq<Reading>)
    requires amount + |rs| > 0
    ensures AverageOf(acc, amount, Good(rs))
            == Mean(Plus3(acc, SumsOf(rs)), acc.min.Some? || SomeMin(rs), acc.max.Some? || SomeMax(rs), amount + |rs|)
    decreases |rs|
  {
    if rs != [] {
      assert Good(rs)[1..] == Good(rs[1..]);
      SomeStep(rs);
      AddMeaning(acc, rs[0], SumsOf(rs[1..]));
      assert AverageOf(acc, amount, Good(rs)) ==
             if Add(acc, rs[0]).Ok? then AverageOf(Add(acc, rs[0]).value, amount + 1, Good(rs[1..])) else Panic;
      if Add(acc, rs[0]).Ok? {
        LoopMeaning(Add(acc, rs[0]).value, amount + 1, rs[1..]);
      }
    }
  }

  /** For readings without an error: the sums divided by the number of all cores, a bound being present
      iff some core reports it; and a panic iff one of the sums does not fit. */
  lemma {:induction false} AverageMeaning(rs: seq<Reading>)
    requires rs != []
    ensures AverageOf(Reading(0, None, None), 0, Good(rs)) == Mean(SumsOf(rs), SomeMin(rs), SomeMax(rs), |rs|)
  {
    LoopMeaning(Reading(0, None, None), 0, rs);
  }

  /** The loop up to a reading that is not `Ok`, from any accumulator on. */
  lemma {:induction false} LoopUpToError(acc: Reading, amount: nat, rs: seq<Reading>, e: Outcome<Reading>, rest: seq<Outcome<Reading>>)
    requires !e.Ok?
    ensures AverageOf(acc, amount, Good(rs) + [e] + rest) == if Plus3(acc, SumsOf(rs)).Fit() then e else Panic
    decreases |rs|
  {
    var readings := Good(rs) + [e] + rest;
    if rs != [] {
      assert readings[0] == Ok(rs[0]);
      assert readings[1..] == Good(rs[1..]) + [e] + rest;
      AddMeaning(acc, rs[0], SumsOf(rs[1..]));
      if Add(acc, rs[0]).Ok? {
        LoopUpToError(Add(acc, rs[0]).value, amount + 1, rs[1..], e, rest);
      }
    }
  }

  /** The first error is returned if the sums in front of it fit, whatever follows it; no core at all is
      an error of its own. */
  lemma {:induction false} FirstErrorIsReturned(rs: seq<Reading>, e: Error, rest: seq<Outcome<Reading>>)
    ensures AverageOf(Reading(0, None, None), 0, Good(rs) + [Err(e)] + rest)
            == if SumsOf(rs).Fit() then Err(e) else Panic
    ensures AverageOf(Reading(0, None, None), 0, []) == Err(MissingData)
  {
    LoopUpToError(Reading(0, None, None), 0, rs, Err(e), rest);
  }

  lemma {:induction false} SumsWithout(rs: seq<Reading>, a: nat)
    requires a < |rs|
    ensures SumsOf(rs) == Plus3(rs[a], SumsOf(rs[..a] + rs[a + 1..]))
  {
    if a == 0 {
      assert rs[..0] + rs[1..] == rs[1..];
    } else {
      SumsWithout(rs[1..], a - 1);
      var rest := rs[..a] + rs[a + 1..];
      assert rest[1..] == rs[1..][..a - 1] + rs[1..][a..];
    }
  }

  lemma {:induction false} HeadOfPermutation(rs: seq<Reading>, ss: seq<Reading>) returns (a: nat)
    requires rs != [] && multiset(rs) == multiset(ss)
    ensures a < |ss| && ss[a] == rs[0]
    ensures multiset(rs[1..]) == multiset(ss[..a] + ss[a + 1..])
  {
    assert rs[0] in multiset(ss);
    a :| 0 <= a < |ss| && ss[a] == rs[0];
    RemoveOne(ss, a);
    RemoveOne(rs, 0);
    assert rs[..0] + rs[1..] == rs[1..];
  }

  lemma {:induction false} SumsOfPermutation(rs: seq<Reading>, ss: seq<Reading>)
    requires multiset(rs) == multiset(ss)
    ensures SumsOf(rs) == SumsOf(ss)
    decreases |rs|
  {
    if rs == [] {
      assert |multiset(ss)| == 0;
    } else {
      var a := HeadOfPermutation(rs, ss);
      SumsOfPermutation(rs[1..], ss[..a] + ss[a + 1..]);
      SumsWithout(ss, a);
    }
  }

  /** The order in which the cores are read does not matter. */
  lemma {:induction false} OrderIsIrrelevant(rs: seq<Reading>, ss: seq<Reading>)
    requires rs != [] && multiset(rs) == multiset(ss)
    ensures AverageOf(Reading(0, None, None), 0, Good(rs)) == AverageOf(Reading(0, None, None), 0, Good(ss))
  {
    assert |multiset(rs)| == |rs| && |multiset(ss)| == |ss|;
    assert forall r :: r in rs <==> r in multiset(rs);
    assert forall r :: r in ss <==> r in multiset(ss);
    SumsOfPermutation(rs, ss);
    AverageMeaning(rs);
    AverageMeaning(ss);
  }

  lemma MulStep(x: int, n: int)
    ensures x * n == x + x * (n - 1)
  {
  }

  lemma {:induction false} SumBounds(rs: seq<Reading>, lo: nat, hi: nat)
    requires forall r <- rs :: lo <= r.current <= hi
    ensures lo * |rs| <= SumsOf(rs).current <= hi * |rs|
  {
    if rs != [] {
      assert rs[0] in rs;
      assert forall r <- rs[1..] :: r in rs;
      SumBounds(rs[1..], lo, hi);
      MulStep(lo, |rs|);
      MulStep(hi, |rs|);
    }
  }

  lemma {:induction false} MinimaBelow(rs: seq<Reading>)
    requires forall r <- rs :: OrZero(r.min) <= r.current
    ensures SumsOf(rs).min <= SumsOf(rs).current
  {
    if rs != [] {
      assert rs[0] in rs;
      assert forall r <- rs[1..] :: r in rs;
      MinimaBelow(rs[1..]);
    }
  }

  lemma {:induction false} MaximaAbove(rs: seq<Reading>)
    requires forall r <- rs :: r.current <= OrZero(r.max)
    ensures SumsOf(rs).current <= SumsOf(rs).max
  {
    if rs != [] {
      assert rs[0] in rs;
      assert forall r <- rs[1..] :: r in rs;
      MaximaAbove(rs[1..]);
    }
  }

  lemma LessFactor(p: int, q: int, n: nat)
    requires p * n < q * n
    ensures p < q
  {
  }

  lemma DivideMonotone(a: nat, b: nat, n: nat)
    requires a <= b && n > 0
    ensures a / n <= b / n
  {
    assert a / n * n <= a;
    assert b < (b / n + 1) * n;
    LessFactor(a / n, b / n + 1, n);
  }

  lemma DivideBounds(lo: nat, sum: nat, hi: nat, n: nat)
    requires n > 0 && lo * n <= sum <= hi * n
    ensures lo <= sum / n <= hi
  {
    DivideMonotone(lo * n, sum, n);
    DivideMonotone(sum, hi * n, n);
  }

  /** The averaged frequency lies between the lowest and the highest one. */
  lemma {:induction false} CurrentIsBetween(rs: seq<Reading>, lo: nat, hi: nat)
    requires rs != [] && forall r <- rs :: lo <= r.current <= hi
    ensures var r := AverageOf(Reading(0, None, None), 0, Good(rs)); r.Ok? ==> lo <= r.value.current <= hi
  {
    AverageMeaning(rs);
    SumBounds(rs, lo, hi);
    DivideBounds(lo, SumsOf(rs).current, hi, |rs|);
  }

  /** Every core runs between the bounds that it reports. */
  predicate Consistent(rs: seq<Reading>) {
    forall r <- rs :: (r.min.Some? ==> r.min.value <= r.current) && (r.max.Some? ==> r.current <= r.max.value)
  }

  /** The averaged minimum never exceeds the averaged frequency, whichever cores report one. */
  lemma {:induction false} MinimumStaysBelow(rs: seq<Reading>)
    requires rs != [] && Consistent(rs)
    ensures var r := AverageOf(Reading(0, None, None), 0, Good(rs));
            r.Ok? && r.value.min.Some? ==> r.value.min.value <= r.value.current
  {
    AverageMeaning(rs);
    MinimaBelow(rs);
    DivideMonotone(SumsOf(rs).min, SumsOf(rs).current, |rs|);
  }

  /** If every core reports a maximum, the averaged maximum is no lower than the averaged frequency. */
  lemma {:induction false} MaximumStaysAbove(rs: seq<Reading>)
    requires rs != [] && Consistent(rs) && forall r <- rs :: r.max.Some?
    ensures MaximumHolds(rs)
  {
    MaximumFromSums(rs);
    MaximaAbove(rs);
    DivideMonotone(SumsOf(rs).current, SumsOf(rs).max, |rs|);
  }

  predicate MaximumHolds(rs: seq<Reading>) {
    var r := AverageOf(Reading(0, None, None), 0, Good(rs));
    r.Ok? && r.value.max.Some? ==> r.value.current <= r.value.max.value
  }

  lemma {:induction false} MaximumFromSums(rs: seq<Reading>)
    requires rs != []
    ensures MaximumHolds(rs) <==>
              SumsOf(rs).Fit() && SomeMax(rs) ==> SumsOf(rs).current / |rs| <= SumsOf(rs).max / |rs|
  {
    AverageMeaning(rs);
  }

  /** Which cores report a maximum. */
  predicate ReportsAre(rs: seq<Reading>, reports: seq<bool>) {
    |rs| == |reports| && forall i | 0 <= i < |rs| :: rs[i].max.Some? == reports[i]
  }

  /** One kilohertz everywhere, and as much for the maximum where one is reported. */
  function Slow(reports: seq<bool>): seq<Reading> {
    if reports == [] then []
    else [Reading(1, None, if reports[0] then Some(1) else None)] + Slow(reports[1..])
  }

  lemma {:induction false} SlowReadings(reports: seq<bool>)
    ensures ReportsAre(Slow(reports), reports) && Consistent(Slow(reports))
    ensures SumsOf(Slow(reports)).current == |reports| && SumsOf(Slow(reports)).min == 0
    ensures SumsOf(Slow(reports)).max <= |reports|
    ensures false in reports ==> SumsOf(Slow(reports)).max < |reports|
  {
    if reports != [] {
      SlowReadings(reports[1..]);
      var rs := Slow(reports);
      assert rs[1..] == Slow(reports[1..]);
      assert forall r :: r in rs <==> r == rs[0] || r in rs[1..];
    }
  }

  lemma {:induction false} SlowMaximumFails(reports: seq<bool>)
    requires true in reports && false in reports && |reports| <= MAX
    ensures !MaximumHolds(Slow(reports))
  {
    SlowReadings(reports);
    var i :| 0 <= i < |reports| && reports[i];
    assert Slow(reports)[i] in Slow(reports) && Slow(reports)[i].max.Some?;
    LowMaximumFails(Slow(reports));
  }

  lemma {:induction false} LowMaximumFails(rs: seq<Reading>)
    requires rs != [] && SomeMax(rs) && |rs| <= MAX
    requires SumsOf(rs).current == |rs| && SumsOf(rs).min == 0 && SumsOf(rs).max < |rs|
    ensures !MaximumHolds(rs)
  {
    MaximumFromSums(rs);
    OneAndNothing(SumsOf(rs).max, |rs|);
  }

  lemma OneAndNothing(k: nat, n: nat)
    requires k < n
    ensures n / n == 1 && k / n == 0
  {
    LessFactor(k / n, 1, n);
  }

  /** A core without a maximum still counts in the divisor. So the averaged maximum is a bound for all
      readings of given cores if and only if all of these cores report one, or none does. */
  lemma {:induction false} MaximumExact(reports: seq<bool>)
    requires 0 < |reports| <= MAX
    ensures (forall rs | ReportsAre(rs, reports) && Consistent(rs) :: MaximumHolds(rs))
            <==> !(true in reports && false in reports)
  {
    SlowReadings(reports);
    if true in reports && false in reports {
      SlowMaximumFails(reports);
    } else {
      forall rs | ReportsAre(rs, reports) && Consistent(rs)
        ensures MaximumHolds(rs)
      {
        AllOrNone(rs, reports);
      }
    }
  }

  lemma {:induction false} AllOrNone(rs: seq<Reading>, reports: seq<bool>)
    requires rs != [] && ReportsAre(rs, reports) && Consistent(rs)
    requires !(true in reports && false in reports)
    ensures MaximumHolds(rs)
  {
    assert forall i | 0 <= i < |rs| :: reports[i] in reports;
    if true in reports {
      MaximumStaysAbove(rs);
    } else {
      assert !SomeMax(rs);
      MaximumFromSums(rs);
    }
  }
}
