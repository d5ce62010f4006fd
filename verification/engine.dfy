/**
 The step loop of chudnovsky_algorithm (pininfinity.py:11-52).

 - The current thread's decimal context (`decimal.getcontext()` on the
   calculation thread) is a DecimalContext object whose `prec` field the loop
   sets (lines 18 and 46).
 - The stop event is the sequence of values that `stop_event.is_set()` returns
   at successive checks of the loop head (line 30). Only runs in which it is
   eventually set are covered; Trace(base, n) describes the first n turns of
   any run.
 - The callback is recorded as the sequence of Report values it receives
   (line 50). The source passes pi = C / S; the model passes the running sum S,
   because C = 426880 * sqrt(10005) is a rounded decimal and is not modelled.
 */
module Engine {
  import opened Series

  /** Every this many turns the precision rises and the callback fires. */
  const ReportEvery: nat := 10
  /** How much the precision rises each time. */
  const PrecisionStep: int := 100
  /** The starting precision the calculation thread passes (BASE_PRECISION). */
  const BasePrecision: int := 1000
  /** The precision of Python's default decimal context. */
  const DefaultPrecision: int := 28

  /** One call of update_callback: the value, the iteration, the precision. */
  datatype Report = Report(sum: real, iteration: nat, precision: int)

  /** The triple returned by chudnovsky_algorithm (with S standing for pi). */
  datatype Outcome = Outcome(sum: real, precision: int, iterations: nat)

  /** Setting a decimal context's precision below 1 raises ValueError. */
  datatype Error = InvalidPrecision(requested: int)

  datatype Result<T> = Ok(value: T) | Err(error: Error)

  /** The decimal module's context of the current thread: only its precision
      matters here. A new one is a copy of the default context. */
  class DecimalContext {
    var prec: int

    ghost predicate Valid()
      reads this
    {
      prec >= 1
    }

    constructor ()
      ensures Valid() && prec == DefaultPrecision
    {
      prec := DefaultPrecision;
    }

    /** `context.prec = p`: rejected, leaving the context as it was, unless p >= 1. */
    method SetPrecision(p: int) returns (ok: bool)
      modifies this
      ensures ok <==> p >= 1
      ensures prec == if ok then p else old(prec)
      ensures old(Valid()) ==> Valid()
    {
      ok := p >= 1;
      if ok {
        prec := p;
      }
    }
  }

  /** The precision after n turns from a starting precision `base`. */
  function PrecisionAt(base: int, n: nat): int
  {
    base + PrecisionStep * (n / ReportEvery)
  }

  /** The callbacks made during the first n turns, in order. */
  function Trace(base: int, n: nat): seq<Report>
  {
    if n == 0 then []
    else Trace(base, n - 1) +
         (if n % ReportEvery == 0 then [Report(PartialSum(n), n, PrecisionAt(base, n))] else [])
  }

  /** What the function returns after n turns. */
  function Final(base: int, n: nat): Outcome
  {
    Outcome(PartialSum(n), PrecisionAt(base, n), n)
  }

  /** The number of loop turns: the index of the first check that finds the
      stop event set. */
  function Turns(readings: seq<bool>): (n: nat)
    requires true in readings
    ensures n < |readings| && readings[n]
    ensures forall k :: 0 <= k < n ==> !readings[k]
  {
    if readings[0] then 0 else Turns(readings[1..]) + 1
  }

  lemma PrecisionAdvance(base: int, n: nat)
    ensures PrecisionAt(base, n + 1) == PrecisionAt(base, n) + (if (n + 1) % ReportEvery == 0 then PrecisionStep else 0)
  {
  }

  /** One turn's algorithm steps: from the values after turn n to those after
      turn n + 1, with `turn` = n + 1 the new value of current_iteration. */
  method AlgorithmStep(n: nat, m: int, l: int, x: int, k: int, s: real)
    returns (m': int, l': int, x': int, k': int, s': real)
    requires m == MAt(n) && l == LAt(n) && x == XAt(n) && k == KAt(n) && s == PartialSum(n)
    ensures m' == MAt(n + 1) && l' == LAt(n + 1) && x' == XAt(n + 1) && k' == KAt(n + 1)
    ensures s' == PartialSum(n + 1)
  {
    XSign(n + 1);
    var turn := n + 1;
    MulAtLeast(turn, turn);
    MulAtLeast(turn * turn, turn);
    m' := TruncDiv(m * (k * k * k - 16 * k), turn * turn * turn);
    l' := l + LStep;
    x' := x * XFactor;
    s' := s + (m' * l') as real / x' as real;
    k' := k + KStep;
  }

  /** The loop of chudnovsky_algorithm, from the initial assignments to the
      returned triple. `readings[k]` is what the k-th check of the stop event
      sees; the turn count is the index of the first set reading. */
  method ChudnovskyAlgorithm(precision: int, ctx: DecimalContext, readings: seq<bool>)
    returns (result: Result<Outcome>, trace: seq<Report>)
    requires true in readings
    modifies ctx
    ensures precision < 1 ==> result == Err(InvalidPrecision(precision)) && trace == [] && ctx.prec == old(ctx.prec)
    ensures precision >= 1 ==>
      && result == Ok(Final(precision, Turns(readings)))
      && trace == Trace(precision, Turns(readings))
      && ctx.prec == PrecisionAt(precision, Turns(readings))
      && ctx.Valid()
    ensures precision >= 1 && readings[0] ==>
      result == Ok(Outcome(LStart as real, precision, 0)) && trace == []
  {
    var ok := ctx.SetPrecision(precision);
    if !ok {
      return Err(InvalidPrecision(precision)), [];
    }
    var prec := precision;
    var m, l, x, k := 1, LStart, 1, KStart;
    var s: real := l as real;
    var iteration: nat := 0;
    trace := [];
    while !readings[iteration]
      invariant iteration <= Turns(readings)
      invariant m == MAt(iteration) && l == LAt(iteration) && x == XAt(iteration) && k == KAt(iteration)
      invariant s == PartialSum(iteration)
      invariant prec == PrecisionAt(precision, iteration) && ctx.prec == prec && ctx.Valid()
      invariant trace == Trace(precision, iteration)
      decreases Turns(readings) - iteration
    {
      m, l, x, k, s := AlgorithmStep(iteration, m, l, x, k, s);
      iteration := iteration + 1;
      PrecisionAdvance(precision, iteration - 1);
      if iteration % ReportEvery == 0 {
        var newPrecision := prec + PrecisionStep;
        ok := ctx.SetPrecision(newPrecision);
        prec := newPrecision;
        trace := trace + [Report(s, iteration, prec)];
      }
    }
    result := Ok(Outcome(s, prec, iteration));
  }

  /** Precision never decreases as turns go by. */
  lemma {:induction false} PrecisionMonotone(base: int, n: nat, n': nat)
    requires n <= n'
    ensures PrecisionAt(base, n) <= PrecisionAt(base, n')
  {
    if n < n' {
      PrecisionMonotone(base, n, n' - 1);
      PrecisionAdvance(base, n' - 1);
    }
  }

  /** One callback per ten completed turns. */
  lemma {:induction false} TraceLength(base: int, n: nat)
    ensures |Trace(base, n)| == n / ReportEvery
  {
    if n > 0 {
      TraceLength(base, n - 1);
    }
  }

  /** The j-th callback (from 0) reports iteration 10(j+1), the precision
      already raised to base + 100(j+1), and the sum after that iteration. */
  lemma {:induction false} TraceAt(base: int, n: nat, j: nat)
    requires j < n / ReportEvery
    ensures |Trace(base, n)| == n / ReportEvery
    ensures Trace(base, n)[j] ==
      Report(PartialSum(ReportEvery * (j + 1)), ReportEvery * (j + 1), base + PrecisionStep * (j + 1))
  {
    TraceLength(base, n);
    TraceLength(base, n - 1);
    if j < (n - 1) / ReportEvery {
      TraceAt(base, n - 1, j);
    } else {
      assert n % ReportEvery == 0 && n == ReportEvery * (j + 1);
    }
  }

  /** Callbacks come in strictly increasing iteration order. */
  lemma TraceIncreasing(base: int, n: nat, j: nat, j': nat)
    requires j < j' < |Trace(base, n)|
    ensures Trace(base, n)[j].iteration < Trace(base, n)[j'].iteration
  {
    TraceLength(base, n);
    TraceAt(base, n, j);
    TraceAt(base, n, j');
  }

  /** An iteration is reported if and only if it is a completed turn that is a
      multiple of ten; the report carries the sum and precision of that turn. */
  lemma TraceReports(base: int, n: nat, i: nat)
    ensures (exists j :: 0 <= j < |Trace(base, n)| && Trace(base, n)[j].iteration == i)
        <==> (1 <= i <= n && i % ReportEvery == 0)
    ensures forall j :: 0 <= j < |Trace(base, n)| && Trace(base, n)[j].iteration == i ==>
        Trace(base, n)[j] == Report(PartialSum(i), i, PrecisionAt(base, i))
  {
    TraceLength(base, n);
    var t := Trace(base, n);
    forall j | 0 <= j < |t|
      ensures t[j].iteration == ReportEvery * (j + 1)
      ensures t[j] == Report(PartialSum(t[j].iteration), t[j].iteration, PrecisionAt(base, t[j].iteration))
    {
      TraceAt(base, n, j);
    }
    if 1 <= i <= n && i % ReportEvery == 0 {
      var j := i / ReportEvery - 1;
      TraceAt(base, n, j);
      assert t[j].iteration == i;
    }
  }

  /** The returned precision is always the last reported one, while the
      returned iteration count equals the last reported iteration exactly when
      the loop stopped on a multiple of ten. */
  lemma FinalAgainstLastReport(base: int, n: nat)
    requires n >= ReportEvery
    ensures |Trace(base, n)| >= 1
    ensures Trace(base, n)[|Trace(base, n)| - 1].precision == Final(base, n).precision
    ensures Trace(base, n)[|Trace(base, n)| - 1].iteration == Final(base, n).iterations <==> n % ReportEvery == 0
  {
    TraceLength(base, n);
    TraceAt(base, n, n / ReportEvery - 1);
  }

  /** Ten turns from the base precision 1000: exactly one callback, at
      iteration 10 with precision 1100. */
  lemma TenTurnsFromBasePrecision()
    ensures Trace(BasePrecision, 10) == [Report(PartialSum(10), 10, 1100)]
    ensures Final(BasePrecision, 10).precision == 1100
  {
    TraceLength(BasePrecision, 10);
    TraceAt(BasePrecision, 10, 0);
  }
}
