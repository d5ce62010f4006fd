# PiNinfinity: the Chudnovsky step loop and the digit layout

This project models two deterministic parts of `pininfinity.py` in Dafny and
proves properties about them.

1. **The step loop of `chudnovsky_algorithm`.** The function sets the decimal
   context's precision. It initialises `M = 1`, `L = 13591409`, `X = 1`,
   `K = 6` and `S = L`. Until the stop event is observed set at the loop head,
   each turn does the following:
   - increments the iteration counter;
   - advances the Chudnovsky recurrence: `M = M·(K³−16K) // i³`, `L += 545140134`,
     `X *= −262537412640768000`, `S += (M·L)/X`, `K += 12`;
   - every tenth turn, raises the precision by 100 and calls the callback.

   It returns `(pi, precision, iterations)`.
2. **The digit layout of `display_pi`.** It prints `"Pi = "` and the first two
   characters of the string form of pi. Then it prints each further character
   up to `min(max_display + 2, len)`: a space starts every block of ten, and a
   line break with a four-space indent starts every line of fifty after the
   first. Finally, when len > max_display + 2, it prints a note giving
   len − display_length; for max_display ≥ 0 that is the number of characters
   held back.

Modules:

- `Engine` (`engine.dfy`). The loop is a method, `ChudnovskyAlgorithm`, over
  local variables, as in the source. It is proved against the specification
  functions `MAt`, `LAt`, `XAt`, `KAt`, `PartialSum`, `PrecisionAt`, `Trace`
  and `Final`.
  - The current thread's decimal context (`decimal.getcontext()` on the
    calculation thread) is a `DecimalContext` object whose `prec` field the
    method updates.
  - The stop event is the sequence of values that successive checks of
    `stop_event.is_set()` return. The model covers runs in which the event is
    eventually set. `calculate_pi` sets it only on a time-out or Ctrl+C
    (pininfinity.py:142-145, 156-169), so a run with neither never stops.
    `Trace(base, n)` still describes the first n turns of such a run.
  - The callback is the sequence of `Report` values it receives.
- `Series` and `SeriesBounds` (`series.dfy`). These give the closed forms of
  the recurrence variables after n turns. They prove that the `//` in the `M`
  update is exact: `M` is the multinomial `(6n)!/((3n)!(n!)³)`. They prove
  that `X` alternates in sign and is never zero, and that the running sum
  stays within ½ of 13591409, so `C / S` is always defined.
- `Combinatorics` (`combinatorics.dfy`). Factorials and binomial coefficients,
  for the multinomial identity.
- `Display` (`display.dfy`). `DisplayPi` and its loop `PrintDigits` build the
  printed text one print call at a time. They are proved equal to the
  specification `Layout`.
  - `Layout` is compared with `Grouped`, an independent block-by-block
    description.
  - Further lemmas count the layout characters, show that removing them gives
    back exactly the shown characters, and fix when the note appears and what
    number it gives.

Idealisation: the source keeps `M`, `L`, `X` and `K` as `decimal.Decimal`
values under a finite precision. The model uses unbounded integers, and `S` is
an exact real. The callback and the returned triple carry `S` where the source
passes `pi = C / S`. The constant `C = 426880·√10005` is a rounded decimal and
is not modelled.

pininfinity.py has no chunked or parallel engine, so none is modelled.

## Model

| member | source | states |
|---|---|---|
| Engine.ChudnovskyAlgorithm | pininfinity.py:11-52 | A precision below 1 is rejected, with the context unchanged and no callback. Otherwise, in the exact-integer model, it returns the sum, the precision base + 100·(n div 10) and the iteration count n, where n is the first loop-head check that sees the stop event set. The callbacks are exactly `Trace(base, n)`, and the context ends at the returned precision. A stop event set before the first check gives zero turns, no callbacks, the initial S = 13591409 and the unchanged precision. |
| Engine.AlgorithmStep | pininfinity.py:31-38 | One turn of the algorithm steps takes the closed-form values of M, L, X, K and S after n turns to those after n + 1 turns. |
| Engine.DecimalContext.SetPrecision | pininfinity.py:18 | Setting the context precision succeeds exactly when p ≥ 1. Then prec becomes p; otherwise it is unchanged, and validity (prec ≥ 1) is preserved. |
| Engine.DecimalContext.constructor | pininfinity.py:18 | The context that `decimal.getcontext()` creates on its first call in a thread (here the calculation thread) is a copy of the default context, with precision 28, which is valid. |
| Engine.Turns | pininfinity.py:30 | The number of turns is the index of the first set reading of the stop flag, and every earlier reading is unset. |
| Engine.PrecisionMonotone | pininfinity.py:44-47 | The precision never decreases as turns go by. |
| Engine.TraceLength | pininfinity.py:44-50 | After n turns there have been exactly n div 10 callbacks. |
| Engine.TraceAt | pininfinity.py:44-50 | The j-th callback reports iteration 10(j+1), the already raised precision base + 100(j+1), and the sum after that turn. |
| Engine.TraceIncreasing | pininfinity.py:44-50 | Callbacks come in strictly increasing iteration order. |
| Engine.TraceReports | pininfinity.py:44-50 | An iteration i is reported if and only if 1 ≤ i ≤ n and i mod 10 = 0. Its report carries the sum after turn i and the precision base + 100·(i div 10). |
| Engine.FinalAgainstLastReport | pininfinity.py:44-52 | After at least ten turns, the returned precision equals the last reported one. The returned iteration count equals the last reported iteration exactly when the loop stopped on a multiple of ten. |
| Engine.TenTurnsFromBasePrecision | pininfinity.py:9-50 | From the base precision 1000 that the only caller passes, ten turns make one callback, at iteration 10 with precision 1100. |
| Engine.PrecisionAdvance | pininfinity.py:44-47 | One more turn raises the precision by 100 exactly when the new iteration count is a multiple of ten, and leaves it unchanged otherwise. |
| Series.MClosedForm | pininfinity.py:20-34 | After n turns M is the multinomial (6n)!/((3n)!(n!)³), a positive integer. |
| Series.MDivisionExact | pininfinity.py:34 | The truncating `//` in the M update never discards a remainder: the new M times i³ equals the old M times K³−16K. |
| Series.MGrowsPositive | pininfinity.py:20-34 | M stays positive and grows at least 120-fold per turn. |
| SeriesBounds.MGrowsAtMost | pininfinity.py:34 | M grows at most 1728-fold per turn. |
| Series.XSign | pininfinity.py:22-37 | After n turns X is positive for even n and negative for odd n, so it is never zero and (M·L)/X is defined. |
| SeriesBounds.NumeratorBound | pininfinity.py:34-37 | From the first term on, M·L·2^(n+1) ≤ \|X\|. |
| SeriesBounds.TermBound | pininfinity.py:37 | Term n added to S has magnitude at most 1/2^(n+1). |
| SeriesBounds.PartialSumNear | pininfinity.py:24-41 | S stays within ½ of 13591409, so it is positive and pi = C / S is always defined. |
| Combinatorics.BinomFact | pininfinity.py:34 | C(n,k)·k!·(n−k)! = n!: the binomials behind the closed form of M are factorial quotients. |
| Combinatorics.MultinomialFact | pininfinity.py:34 | The multinomial times (3n)!(n!)³ is (6n)!, and it is at least 1. |
| Combinatorics.MultinomialRatio | pininfinity.py:34 | Consecutive multinomials differ by the factor (K³−16K)/n³ with K = 12n−6, which is the M recurrence. |
| Display.DisplayPi | pininfinity.py:68-91 | The printed text is `Layout`: "Pi = ", the first two characters, the shown characters with their separators, then the truncation note. |
| Display.PrintDigits | pininfinity.py:80-87 | The loop over indices 2 … display_length−1 prints `Emit` of exactly those characters. |
| Display.EmitAppend | pininfinity.py:82-87 | Each next character is printed after its separator: a space when (i−2) mod 10 = 0, plus a line break and indent when (i−2) mod 50 = 0 and i > 2. |
| Display.EmitIsGrouped | pininfinity.py:82-87 | The character-by-character output equals the layout in blocks of ten characters, five blocks per line, each block led by a space and each line after the first by a line break and indent. |
| Display.EmitKeepsCharacters | pininfinity.py:82-87 | Removing spaces and line breaks from the loop's output gives back its input with spaces and line breaks removed: the loop adds only layout characters. |
| Display.LayoutShowsCharacters | pininfinity.py:77-87 | Exactly min(max_display+2, len)−2 further characters are shown (none if that is not positive). They are the string's characters from index 2 on, in order, and for a string without spaces or line breaks, as `str()` of a Decimal always is, removing the layout characters gives them back. |
| Display.EmitLength | pininfinity.py:82-87 | The loop prints one space per started block of ten and one five-character line break per started line of fifty after the first. |
| Display.NoteWhenTruncated | pininfinity.py:80-91 | The note is printed if and only if len > max_display + 2. It then states len − display_length, which reads back as that number. |
| Display.ParseNatToString | pininfinity.py:91 | The decimal rendering of the count in the note reads back as the count. |
| Display.StripSeparator | pininfinity.py:83-86 | A separator consists of layout characters only. |

## Left out

- Decimal arithmetic (pininfinity.py:19, 26, 37, 41): `C = 426880·√10005`, the
  rounding of `S += (M·L)/X`, and `pi = C / S`. `S` is an exact real and is
  what the callback and the return carry. No claim is made about convergence
  or digit correctness.
- Engine.ChudnovskyAlgorithm: does not model the rounding of `M`, `L`, `X`
  and `K` as decimals, because they are unbounded integers here. In the
  source, from a base precision of 1000, X's coefficient outgrows the context
  from about turn 127. The rounding first drops only X's trailing zeros (X_n
  ends in 3n zeros, since 262537412640768000 = 640320³ and 640320 = 64032·10
  with 64032 not divisible by 5), so X stays exactly (−262537412640768000)ⁿ
  through turn 208 and is first inexact at turn 209. Nor does it model the
  exception of the `//` on line 34: integer division of `decimal.Decimal` values raises
  `decimal.InvalidOperation` (DivisionImpossible) when the quotient has more
  digits than the context precision. M gains about 3.24 digits per turn and
  the precision stays at its starting value until turn 10, so a starting
  precision below 30 raises within the first ten turns (precision 1 at turn
  1, the default 28 at turn 10); `calculation_thread` would catch and print
  it (pininfinity.py:138-139). The model instead returns a result for every
  precision of at least 1. The only caller passes 1000 (pininfinity.py:9,
  130-131), which does not raise.
- Engine.DecimalContext.SetPrecision: the upper bound `MAX_PREC` of Python's
  decimal module is not modelled; only a precision below 1 is rejected.
- Threads, the timeout thread, `join` polling and `threading.Event`
  (pininfinity.py:103, 128-171). These are concurrency plumbing. The stop event
  is the sequence of readings at the loop head.
- `update_results` (pininfinity.py:114-125): wall-clock throttling and a dict
  shared between threads.
- `save_to_file` (pininfinity.py:54-66): file I/O.
- `calculate_pi`'s final reporting and `main` (pininfinity.py:173-229): timing,
  prompts and printing.
- Inside `display_pi`: `str(pi_value)` (the model takes the string itself),
  the screen clear (line 73), and the header and footer rules (lines 74-75,
  93).
- Exceptions raised by the callback: the model's callback is a recorder that
  cannot fail.
