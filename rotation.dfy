// Run-length accounting of an employee's working codes (src/App.tsx:226-250)
// and the rotation that continues a pattern: every working day advances a
// counter and, once the counter reaches the threshold, the code switches
// category and the counter restarts at zero (src/App.tsx:330-357, 689-710).

module Rotation {

  import opened Wrappers
  import opened Text
  import opened ShiftCatalog

  /** One maximal stretch of days on the same working code. */
  datatype Run = Run(code: string, days: nat)

  function Last<T>(s: seq<T>): T
    requires |s| > 0
  {
    s[|s| - 1]
  }

  /** One more day on code c: the last run grows if it has that code, otherwise a run opens. */
  function Push(runs: seq<Run>, c: string): seq<Run>
  {
    if |runs| > 0 && Last(runs).code == c then runs[..|runs| - 1] + [Run(c, Last(runs).days + 1)]
    else runs + [Run(c, 1)]
  }

  /** The run-length encoding of a code sequence, built from the left. */
  function RunLength(codes: seq<string>): seq<Run>
  {
    if |codes| == 0 then [] else Push(RunLength(codes[..|codes| - 1]), Last(codes))
  }

  /** n copies of c. */
  function Repeat(c: string, n: nat): (r: seq<string>)
    ensures |r| == n
  {
    if n == 0 then [] else Repeat(c, n - 1) + [c]
  }

  lemma {:induction false} RepeatAt(c: string, n: nat, i: nat)
    requires i < n
    ensures Repeat(c, n)[i] == c
  {
    if i < n - 1 {
      RepeatAt(c, n - 1, i);
    }
  }

  /** The code sequence a list of runs stands for. */
  function Expand(runs: seq<Run>): seq<string>
  {
    if |runs| == 0 then [] else Expand(runs[..|runs| - 1]) + Repeat(Last(runs).code, Last(runs).days)
  }

  function TotalDays(runs: seq<Run>): nat
  {
    if |runs| == 0 then 0 else TotalDays(runs[..|runs| - 1]) + Last(runs).days
  }

  /** Runs are maximal: none is empty and neighbouring runs have different codes. */
  predicate MaximalRuns(runs: seq<Run>) {
    (forall i :: 0 <= i < |runs| ==> runs[i].days >= 1)
    && (forall i :: 0 < i < |runs| ==> runs[i - 1].code != runs[i].code)
  }

  /** The encoding is maximal, expands back to the codes, and ends with the last code. */
  lemma {:induction false} RunLengthSound(codes: seq<string>)
    ensures MaximalRuns(RunLength(codes))
    ensures Expand(RunLength(codes)) == codes
    ensures |RunLength(codes)| <= |codes|
    ensures |codes| > 0 ==> |RunLength(codes)| > 0 && Last(RunLength(codes)).code == Last(codes)
  {
    if |codes| > 0 {
      var init := codes[..|codes| - 1];
      assert init + [Last(codes)] == codes;
      RunLengthSound(init);
      SoundStep(init, Last(codes));
    }
  }

  /** The inductive step of RunLengthSound: one more code keeps the encoding sound. */
  lemma SoundStep(init: seq<string>, c: string)
    requires MaximalRuns(RunLength(init)) && Expand(RunLength(init)) == init
    requires |RunLength(init)| <= |init|
    ensures MaximalRuns(RunLength(init + [c]))
    ensures Expand(RunLength(init + [c])) == init + [c]
    ensures |RunLength(init + [c])| <= |init + [c]|
    ensures |RunLength(init + [c])| > 0 && Last(RunLength(init + [c])).code == c
  {
    RunLengthSnoc(init, c);
    var runs := RunLength(init);
    if |runs| > 0 && Last(runs).code == c {
      var r := runs[..|runs| - 1];
      assert runs == r + [Run(c, Last(runs).days)];
      ExtendSound(init, r, c, Last(runs).days);
    } else {
      NewRunSound(init, runs, c);
    }
  }

  /** The step of RunLengthSound where the new code extends the last run. */
  lemma ExtendSound(xs: seq<string>, r: seq<Run>, c: string, n: nat)
    requires MaximalRuns(r + [Run(c, n)]) && Expand(r + [Run(c, n)]) == xs
    ensures MaximalRuns(r + [Run(c, n + 1)]) && Expand(r + [Run(c, n + 1)]) == xs + [c]
  {
    MaximalExtend(r, c, n);
    ExpandSnoc(r, Run(c, n));
    ExpandSnoc(r, Run(c, n + 1));
    assert Repeat(c, n + 1) == Repeat(c, n) + [c];
  }

  /** The step of RunLengthSound where the new code opens a run. */
  lemma NewRunSound(xs: seq<string>, runs: seq<Run>, c: string)
    requires MaximalRuns(runs) && Expand(runs) == xs && (|runs| == 0 || Last(runs).code != c)
    ensures MaximalRuns(runs + [Run(c, 1)]) && Expand(runs + [Run(c, 1)]) == xs + [c]
  {
    MaximalNewRun(runs, c);
    ExpandSnoc(runs, Run(c, 1));
    assert Repeat(c, 1) == [c];
  }

  lemma MaximalExtend(r: seq<Run>, c: string, n: nat)
    requires MaximalRuns(r + [Run(c, n)])
    ensures MaximalRuns(r + [Run(c, n + 1)])
  {
    var a, b := r + [Run(c, n)], r + [Run(c, n + 1)];
    assert forall i :: 0 <= i < |b| ==> b[i].code == a[i].code && b[i].days >= a[i].days;
  }

  lemma MaximalNewRun(runs: seq<Run>, c: string)
    requires MaximalRuns(runs) && (|runs| == 0 || Last(runs).code != c)
    ensures MaximalRuns(runs + [Run(c, 1)])
  {
  }

  lemma ExpandSnoc(runs: seq<Run>, x: Run)
    ensures Expand(runs + [x]) == Expand(runs) + Repeat(x.code, x.days)
  {
    assert (runs + [x])[..|runs|] == runs;
  }

  lemma {:induction false} ExpandLength(runs: seq<Run>)
    ensures |Expand(runs)| == TotalDays(runs)
  {
    if |runs| > 0 {
      ExpandLength(runs[..|runs| - 1]);
    }
  }

  /** The run counts add up to the number of codes. */
  lemma RunLengthTotal(codes: seq<string>)
    ensures TotalDays(RunLength(codes)) == |codes|
  {
    RunLengthSound(codes);
    ExpandLength(RunLength(codes));
  }

  lemma {:induction false} ExpandLast(runs: seq<Run>)
    requires MaximalRuns(runs) && |runs| > 0
    ensures |Expand(runs)| > 0 && Last(Expand(runs)) == Last(runs).code
  {
  }

  lemma RunLengthSnoc(codes: seq<string>, c: string)
    ensures RunLength(codes + [c]) == Push(RunLength(codes), c)
  {
    assert (codes + [c])[..|codes|] == codes;
  }

  /** A new code that differs from the last one opens a run of its own. */
  lemma RunLengthNewRun(xs: seq<string>, c: string, zs: seq<string>)
    requires |xs| == 0 || Last(xs) != c
    requires zs == xs + [c]
    ensures RunLength(zs) == RunLength(xs) + [Run(c, 1)]
  {
    RunLengthSound(xs);
    RunLengthSnoc(xs, c);
  }

  /** Repeating the last code extends the last run by one. */
  lemma RunLengthExtendRun(xs: seq<string>, runs: seq<Run>, c: string, n: nat, zs: seq<string>)
    requires RunLength(xs) == runs + [Run(c, n)]
    requires zs == xs + [c]
    ensures RunLength(zs) == runs + [Run(c, n + 1)]
  {
    RunLengthSnoc(xs, c);
    assert (runs + [Run(c, n)])[..|runs|] == runs;
  }

  lemma RepeatSnoc(xs: seq<string>, c: string, n: nat)
    requires n >= 1
    ensures xs + Repeat(c, n) == (xs + Repeat(c, n - 1)) + [c]
  {
    assert xs + (Repeat(c, n - 1) + [c]) == (xs + Repeat(c, n - 1)) + [c];
  }

  lemma {:induction false} RunLengthAppendRepeat(xs: seq<string>, c: string, n: nat)
    requires n >= 1
    requires |xs| == 0 || Last(xs) != c
    ensures RunLength(xs + Repeat(c, n)) == RunLength(xs) + [Run(c, n)]
  {
    if n == 1 {
      AppendRepeatOne(xs, c);
    } else {
      RunLengthAppendRepeat(xs, c, n - 1);
      AppendRepeatStep(xs, c, n);
    }
  }

  lemma AppendRepeatOne(xs: seq<string>, c: string)
    requires |xs| == 0 || Last(xs) != c
    ensures RunLength(xs + Repeat(c, 1)) == RunLength(xs) + [Run(c, 1)]
  {
    assert Repeat(c, 1) == [c];
    RunLengthNewRun(xs, c, xs + Repeat(c, 1));
  }

  lemma AppendRepeatStep(xs: seq<string>, c: string, n: nat)
    requires n >= 2
    requires RunLength(xs + Repeat(c, n - 1)) == RunLength(xs) + [Run(c, n - 1)]
    ensures RunLength(xs + Repeat(c, n)) == RunLength(xs) + [Run(c, n)]
  {
    RepeatSnoc(xs, c, n);
    RunLengthExtendRun(xs + Repeat(c, n - 1), RunLength(xs), c, n - 1, xs + Repeat(c, n));
  }

  /** Maximal runs are recovered from their expansion: the encoding is the unique maximal one. */
  lemma {:induction false} RunLengthOfExpand(runs: seq<Run>)
    requires MaximalRuns(runs)
    ensures RunLength(Expand(runs)) == runs
  {
    if |runs| > 0 {
      var init := runs[..|runs| - 1];
      assert MaximalRuns(init);
      RunLengthOfExpand(init);
      if |init| > 0 {
        ExpandLast(init);
      }
      RunLengthAppendRepeat(Expand(init), Last(runs).code, Last(runs).days);
      assert init + [Last(runs)] == runs;
    }
  }

  /** The "code:count" text an item of shiftRotations holds. */
  function RunText(r: Run): string {
    r.code + ":" + NatToString(r.days)
  }

  /** lastRotation.split(':') followed by parseInt of the count: the code and the count (None for NaN). */
  function ParseRunText(t: string): (string, Option<int>) {
    var parts := Split(t, ':');
    (parts[0], if |parts| >= 2 then ParseInt(parts[1]) else None)
  }

  /** Reading a run's text back gives the run, provided its code has no colon. */
  lemma RunTextRoundTrip(r: Run)
    requires ':' !in r.code
    ensures ParseRunText(RunText(r)) == (r.code, Some(r.days as int))
  {
    var parts := [r.code, NatToString(r.days)];
    assert ':' !in NatToString(r.days);
    assert Join(parts[1..], [':']) == NatToString(r.days);
    assert Join(parts, [':']) == RunText(r);
    SplitJoin(parts, ':');
    ParseNatToString(r.days);
  }

  /** Math.round(a / b) for a >= 0 and b > 0: floor(a / b + 1/2). */
  function RoundDiv(a: nat, b: nat): (r: nat)
    requires b > 0
    ensures 2 * b * r <= 2 * a + b < 2 * b * (r + 1)
  {
    var q := (2 * a + b) / (2 * b);
    assert 2 * a + b == 2 * b * q + (2 * a + b) % (2 * b);
    q
  }

  /** The rotation state: the code to write next and the working days counted so far. */
  datatype RotState = RotState(code: string, counter: int)

  /** One working day: count it, and switch category once the count reaches the threshold. */
  function Step(s: RotState, threshold: int): RotState {
    if s.counter + 1 >= threshold then RotState(Flip(s.code), 0) else RotState(s.code, s.counter + 1)
  }

  /** The state after j working days. */
  function StateAfter(s: RotState, threshold: int, j: nat): RotState {
    if j == 0 then s else Step(StateAfter(s, threshold, j - 1), threshold)
  }

  /** The code after n category switches. */
  function FlipN(c: string, n: nat): string {
    if n == 0 then c else Flip(FlipN(c, n - 1))
  }

  /** Working days until the first switch from counter k: at least one. */
  function FirstBlock(k: int, threshold: int): nat {
    if threshold - k >= 1 then threshold - k else 1
  }

  lemma {:induction false} StateAfterAdd(s: RotState, threshold: int, a: nat, b: nat)
    ensures StateAfter(s, threshold, a + b) == StateAfter(StateAfter(s, threshold, a), threshold, b)
  {
    if b > 0 {
      StateAfterAdd(s, threshold, a, b - 1);
    }
  }

  /** Before the first switch the code is kept and the counter climbs by one per day. */
  lemma {:induction false} WithinFirstBlock(c: string, k: int, threshold: int, j: nat)
    requires j < FirstBlock(k, threshold)
    ensures StateAfter(RotState(c, k), threshold, j) == RotState(c, k + j)
  {
    if j > 0 {
      WithinFirstBlock(c, k, threshold, j - 1);
    }
  }

  /** The first switch comes exactly FirstBlock days in and resets the counter. */
  lemma FirstSwitch(c: string, k: int, threshold: int)
    ensures StateAfter(RotState(c, k), threshold, FirstBlock(k, threshold)) == RotState(Flip(c), 0)
  {
    var f := FirstBlock(k, threshold);
    WithinFirstBlock(c, k, threshold, f - 1);
  }

  /** From a fresh counter, threshold days bring one switch and the counter restarts. */
  lemma FullBlock(c: string, threshold: int, r: nat)
    requires threshold >= 1 && r < threshold
    ensures StateAfter(RotState(c, 0), threshold, threshold + r) == RotState(Flip(c), r)
  {
    StateAfterAdd(RotState(c, 0), threshold, threshold, r);
    FirstSwitch(c, 0, threshold);
    WithinFirstBlock(Flip(c), 0, threshold, r);
  }

  /** Closed form: after the first switch the code switches again every threshold working days. */
  lemma {:induction false} RotationClosedForm(c: string, k: int, threshold: int, n: nat, r: nat)
    requires threshold >= 1 && r < threshold
    ensures StateAfter(RotState(c, k), threshold, FirstBlock(k, threshold) + n * threshold + r)
         == RotState(FlipN(c, n + 1), r)
  {
    var s := RotState(c, k);
    var f := FirstBlock(k, threshold);
    if n == 0 {
      StateAfterAdd(s, threshold, f, r);
      FirstSwitch(c, k, threshold);
      WithinFirstBlock(Flip(c), 0, threshold, r);
    } else {
      RotationClosedForm(c, k, threshold, n - 1, 0);
      var m := f + (n - 1) * threshold;
      assert f + n * threshold + r == m + (threshold + r);
      StateAfterAdd(s, threshold, m, threshold + r);
      FullBlock(FlipN(c, n), threshold, r);
    }
  }

  /** Switches alternate a working code between the morning and night sets
      and, from the first switch on, land on AU or IST. */
  lemma {:induction false} FlipNAlternates(c: string, n: nat)
    requires IsWorkingCode(c)
    ensures IsWorkingCode(FlipN(c, n))
    ensures FlipN(c, n) in MorningCodes() <==> (c in MorningCodes() <==> n % 2 == 0)
    ensures n >= 1 ==> FlipN(c, n) == "AU" || FlipN(c, n) == "IST"
  {
    if n > 0 {
      FlipNAlternates(c, n - 1);
    }
  }

  /** A working code stays a working code however many days the rotation runs. */
  lemma {:induction false} StateAfterWorking(s: RotState, threshold: int, j: nat)
    requires IsWorkingCode(s.code)
    ensures IsWorkingCode(StateAfter(s, threshold, j).code)
  {
    if j > 0 {
      StateAfterWorking(s, threshold, j - 1);
    }
  }
}
