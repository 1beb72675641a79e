/** The lint pool: workers that share one counter and write into one sparse result list. */
module LintPool {
  import opened Collections
  import opened JsIntegers
  import opened Wrappers
  import TextLines

  // ---------------------------------------------------------------- how many workers

  predicate IsDigit(c: char) {
    '0' <= c <= '9'
  }

  function DigitsLength(s: string): (n: nat)
    ensures n <= |s|
  {
    if s == [] || !IsDigit(s[0]) then 0 else 1 + DigitsLength(s[1..])
  }

  function DigitsValue(s: string): nat
    requires forall i :: 0 <= i < |s| ==> IsDigit(s[i])
  {
    if s == [] then 0
    else
      assert IsDigit(s[|s| - 1]);
      DigitsValue(s[..|s| - 1]) * 10 + (s[|s| - 1] as int - '0' as int)
  }

  lemma {:induction false} DigitsOnly(s: string)
    ensures forall i :: 0 <= i < DigitsLength(s) ==> IsDigit(s[i])
    ensures (forall i :: 0 <= i < |s| ==> IsDigit(s[i])) ==> DigitsLength(s) == |s|
  {
    if s != [] && IsDigit(s[0]) {
      DigitsOnly(s[1..]);
      assert forall i :: 1 <= i < |s| ==> s[i] == s[1..][i - 1];
    }
  }

  /** The prefix parser of the language: spaces, a sign, then as many digits as there are. None is NaN. */
  function ParseInt(s: string): Option<int> {
    if s != [] && TextLines.IsSpace(s[0]) then ParseInt(s[1..])
    else
      var signed := s != [] && (s[0] == '-' || s[0] == '+');
      var digits := if signed then s[1..] else s;
      var n := DigitsLength(digits);
      DigitsOnly(digits);
      if n == 0 then None
      else
        var value: int := DigitsValue(digits[..n]);
        Some(if signed && s[0] == '-' then -value else value)
  }

  /** The decimal text of a number. */
  function Decimal(n: nat): (s: string)
    ensures s != [] && forall i :: 0 <= i < |s| ==> IsDigit(s[i])
  {
    var last := ['0' + (n % 10) as char];
    if n < 10 then last else Decimal(n / 10) + last
  }

  function ToText(n: int): string {
    if n < 0 then ['-'] + Decimal(-n) else Decimal(n)
  }

  lemma {:induction false} DecimalValue(n: nat)
    ensures DigitsValue(Decimal(n)) == n
  {
    var s := Decimal(n);
    var last := '0' + (n % 10) as char;
    assert s[|s| - 1] == last && last as int - '0' as int == n % 10;
    if n >= 10 {
      DecimalValue(n / 10);
      assert s[..|s| - 1] == Decimal(n / 10);
    } else {
      assert s[..|s| - 1] == [];
    }
  }

  lemma ParseDecimal(n: nat)
    ensures ParseInt(Decimal(n)) == Some(n)
  {
    var s := Decimal(n);
    assert IsDigit(s[0]);
    DigitsOnly(s);
    assert s[..|s|] == s;
    DecimalValue(n);
  }

  /** The configured number of workers, or the refused setting. */
  function Concurrency(total: nat, raw: Option<string>, parallelism: int): (r: Result<int, string>)
    ensures total == 0 ==> r == Success(0)
    ensures r.Success? && parallelism >= 1 ==> r.value <= total && (total > 0 ==> r.value >= 1)
  {
    if total == 0 then Success(0)
    else if raw.Some? && raw.value != [] then
      var parsed := ParseInt(raw.value);
      if parsed.None? || parsed.value > MAX_SAFE_INTEGER || parsed.value < 1 || ToText(parsed.value) != raw.value
      then Failure(raw.value)
      else Success(Min(total, parsed.value))
    else Success(Min(total, parallelism))
  }

  /** A setting is accepted exactly when it is the plain decimal text of a positive safe integer. */
  lemma SettingAcceptedIff(total: nat, raw: string, parallelism: int)
    requires total > 0 && raw != []
    ensures Concurrency(total, Some(raw), parallelism).Success? <==>
              exists n: nat :: 1 <= n <= MAX_SAFE_INTEGER && raw == Decimal(n)
    ensures forall n: nat :: 1 <= n <= MAX_SAFE_INTEGER && raw == Decimal(n) ==>
              Concurrency(total, Some(raw), parallelism) == Success(if n < total then n else total)
    ensures Concurrency(total, Some(raw), parallelism).Failure? ==>
              Concurrency(total, Some(raw), parallelism).error == raw
  {
    if Concurrency(total, Some(raw), parallelism).Success? {
      var n: nat := ParseInt(raw).value;
      assert raw == Decimal(n);
    }
    forall n: nat | 1 <= n <= MAX_SAFE_INTEGER && raw == Decimal(n)
      ensures Concurrency(total, Some(raw), parallelism) == Success(Min(total, n))
    {
      ParseDecimal(n);
    }
  }

  /** Without a setting there are as many workers as the machine runs in parallel, but no more than targets. */
  lemma UnsetConcurrency(total: nat, raw: Option<string>, parallelism: int, n: int)
    requires total > 0 && (raw == None || raw == Some(""))
    ensures Concurrency(total, raw, parallelism) == Success(n) <==>
      n <= total && n <= parallelism && (n == total || n == parallelism)
  {
  }

  // ---------------------------------------------------------------- the pool as a step system

  datatype Worker = Waiting | Linting(index: nat) | Returned

  /** `results` is the sparse array; `linted` records the calls of the linter, in order. */
  datatype Pool<R> = Pool(next: nat, workers: seq<Worker>, results: map<nat, R>, linted: seq<nat>)

  datatype Step = Claim(worker: nat) | Finish(worker: nat)

  predicate Enabled<R>(s: Pool<R>, step: Step) {
    && step.worker < |s.workers|
    && match step
       case Claim(w) => s.workers[w] == Waiting
       case Finish(w) => s.workers[w].Linting?
  }

  /**
   * A claim takes the counter's value and moves it on, past the end too; a finished call stores its
   * result at the claimed place.
   */
  function Take<T, R>(targets: seq<T>, lint: T -> R, s: Pool<R>, step: Step): Pool<R>
    requires Enabled(s, step)
    requires forall w :: 0 <= w < |s.workers| && s.workers[w].Linting? ==> s.workers[w].index < |targets|
  {
    match step
    case Claim(w) =>
      if s.next < |targets| then
        s.(next := s.next + 1, workers := s.workers[w := Linting(s.next)], linted := s.linted + [s.next])
      else
        s.(next := s.next + 1, workers := s.workers[w := Returned])
    case Finish(w) =>
      var i := s.workers[w].index;
      s.(workers := s.workers[w := Waiting], results := s.results[i := lint(targets[i])])
  }

  function Size(concurrency: int): nat {
    if concurrency < 0 then 0 else concurrency
  }

  function Opened<R>(concurrency: int): Pool<R> {
    Pool(0, seq(Size(concurrency), _ => Waiting), map[], [])
  }

  /** The state after a sequence of steps, if every one of them was possible. */
  ghost function Run<T, R>(targets: seq<T>, lint: T -> R, concurrency: int, steps: seq<Step>): (s: Option<Pool<R>>)
    ensures s.Some? ==> Inv(targets, lint, concurrency, s.value)
    ensures s.Some? ==> s.value.next + |s.value.results| == |steps|
  {
    if steps == [] then
      CountWaiting(Size(concurrency));
      Some(Opened(concurrency))
    else
      var last := |steps| - 1;
      var before := Run(targets, lint, concurrency, steps[..last]);
      if before.None? || !Enabled(before.value, steps[last]) then None
      else
        StepKeepsInv(targets, lint, concurrency, before.value, steps[last]);
        Some(Take(targets, lint, before.value, steps[last]))
  }

  // ---------------------------------------------------------------- what every step keeps

  ghost predicate InFlight<R>(s: Pool<R>, i: nat) {
    exists w :: 0 <= w < |s.workers| && s.workers[w] == Linting(i)
  }

  function ReturnedCount(workers: seq<Worker>): (n: nat)
    ensures n <= |workers|
  {
    if workers == [] then 0
    else ReturnedCount(workers[..|workers| - 1]) + (if workers[|workers| - 1] == Returned then 1 else 0)
  }

  /**
   * Targets are called in order and once each; each called target either is in flight at exactly one
   * worker or has its own result; a worker only returns when no target is left to call.
   */
  ghost predicate Inv<T, R>(targets: seq<T>, lint: T -> R, concurrency: int, s: Pool<R>) {
    && |s.workers| == Size(concurrency)
    && |s.linted| == Min(s.next, |targets|)
    && s.next == |s.linted| + ReturnedCount(s.workers)
    && (forall k :: 0 <= k < |s.linted| ==> s.linted[k] == k)
    && (forall w :: 0 <= w < |s.workers| && s.workers[w].Linting? ==>
          s.workers[w].index < |s.linted| && s.workers[w].index !in s.results)
    && (forall v, w :: 0 <= v < w < |s.workers| && s.workers[v].Linting? ==> s.workers[v] != s.workers[w])
    && (forall i :: i in s.results ==> i < |s.linted| && s.results[i] == lint(targets[i]))
    && (forall i: nat :: i < |s.linted| && i !in s.results ==> InFlight(s, i))
  }

  lemma {:induction false} CountUpdate(workers: seq<Worker>, w: nat, to: Worker)
    requires w < |workers| && workers[w] != Returned
    ensures ReturnedCount(workers[w := to]) == ReturnedCount(workers) + (if to == Returned then 1 else 0)
  {
    var n := |workers| - 1;
    if w < n {
      CountUpdate(workers[..n], w, to);
      assert workers[w := to][..n] == workers[..n][w := to];
    } else {
      assert workers[w := to][..n] == workers[..n];
    }
  }

  lemma {:induction false} CountWaiting(n: nat)
    ensures ReturnedCount(seq(n, _ => Waiting)) == 0
  {
    if n > 0 {
      assert seq(n, _ => Waiting)[..n - 1] == seq(n - 1, _ => Waiting);
      CountWaiting(n - 1);
    }
  }

  lemma {:induction false} CountAll(workers: seq<Worker>)
    ensures ReturnedCount(workers) == |workers| <==> forall w :: 0 <= w < |workers| ==> workers[w] == Returned
  {
    if workers != [] {
      CountAll(workers[..|workers| - 1]);
    }
  }

  lemma StepKeepsInv<T, R>(targets: seq<T>, lint: T -> R, concurrency: int, s: Pool<R>, step: Step)
    requires Inv(targets, lint, concurrency, s) && Enabled(s, step)
    ensures Inv(targets, lint, concurrency, Take(targets, lint, s, step))
    ensures Take(targets, lint, s, step).next + |Take(targets, lint, s, step).results| == s.next + |s.results| + 1
  {
    match step
    case Claim(w) =>
      CountUpdate(s.workers, w, if s.next < |targets| then Linting(s.next) else Returned);
      if s.next < |targets| {
        NoneReturned(s, targets, lint, concurrency);
        ClaimKeepsInv(targets, lint, concurrency, s, w);
      } else {
        ReturnKeepsInv(targets, lint, concurrency, s, w);
      }
    case Finish(w) =>
      CountUpdate(s.workers, w, Waiting);
      FinishKeepsInv(targets, lint, concurrency, s, w);
  }

  lemma NoneReturned<T, R>(s: Pool<R>, targets: seq<T>, lint: T -> R, concurrency: int)
    requires Inv(targets, lint, concurrency, s) && s.next < |targets|
    ensures s.next == |s.linted|
  {
  }

  lemma ClaimKeepsInv<T, R>(targets: seq<T>, lint: T -> R, concurrency: int, s: Pool<R>, w: nat)
    requires Inv(targets, lint, concurrency, s) && Enabled(s, Claim(w)) && s.next < |targets|
    requires ReturnedCount(s.workers[w := Linting(s.next)]) == ReturnedCount(s.workers)
    ensures Inv(targets, lint, concurrency, Take(targets, lint, s, Claim(w)))
  {
    var t := Take(targets, lint, s, Claim(w));
    hide ReturnedCount;
    forall i: nat | i < |t.linted| && i !in t.results ensures InFlight(t, i) {
      if i < |s.linted| {
        var v :| 0 <= v < |s.workers| && s.workers[v] == Linting(i);
        assert t.workers[v] == Linting(i);
      } else {
        assert t.workers[w] == Linting(i);
      }
    }
  }

  lemma ReturnKeepsInv<T, R>(targets: seq<T>, lint: T -> R, concurrency: int, s: Pool<R>, w: nat)
    requires Inv(targets, lint, concurrency, s) && Enabled(s, Claim(w)) && s.next >= |targets|
    requires ReturnedCount(s.workers[w := Returned]) == ReturnedCount(s.workers) + 1
    ensures Inv(targets, lint, concurrency, Take(targets, lint, s, Claim(w)))
  {
    var t := Take(targets, lint, s, Claim(w));
    hide ReturnedCount;
    forall i: nat | i < |t.linted| && i !in t.results ensures InFlight(t, i) {
      var v :| 0 <= v < |s.workers| && s.workers[v] == Linting(i);
      assert t.workers[v] == Linting(i);
    }
  }

  lemma FinishKeepsInv<T, R>(targets: seq<T>, lint: T -> R, concurrency: int, s: Pool<R>, w: nat)
    requires Inv(targets, lint, concurrency, s) && Enabled(s, Finish(w))
    requires ReturnedCount(s.workers[w := Waiting]) == ReturnedCount(s.workers)
    ensures Inv(targets, lint, concurrency, Take(targets, lint, s, Finish(w)))
  {
    var t := Take(targets, lint, s, Finish(w));
    hide ReturnedCount;
    forall i: nat | i < |t.linted| && i !in t.results ensures InFlight(t, i) {
      var v :| 0 <= v < |s.workers| && s.workers[v] == Linting(i);
      assert t.workers[v] == Linting(i);
    }
  }

  // ---------------------------------------------------------------- what every run does

  function UpTo(n: nat): (s: set<nat>)
    ensures forall i: nat :: i in s <==> i < n
  {
    if n == 0 then {} else UpTo(n - 1) + {n - 1}
  }

  lemma {:induction false} UpToSize(n: nat)
    ensures |UpTo(n)| == n
  {
    if n > 0 {
      UpToSize(n - 1);
    }
  }

  ghost predicate AllReturned<R>(s: Pool<R>) {
    forall w :: 0 <= w < |s.workers| ==> s.workers[w] == Returned
  }

  /** The workers with a call in flight. */
  ghost function Calls<R>(s: Pool<R>): set<nat> {
    set w: nat | w < |s.workers| && s.workers[w].Linting?
  }

  /**
   * At every moment of every run: the calls so far were of the first targets, in order and once each;
   * no more than `concurrency` are in flight; and a target is only left uncalled while no worker has
   * returned.
   */
  lemma EveryMoment<T, R>(targets: seq<T>, lint: T -> R, concurrency: int, steps: seq<Step>)
    requires Run(targets, lint, concurrency, steps).Some?
    ensures
      var s := Run(targets, lint, concurrency, steps).value;
      && s.linted == seq(|s.linted|, i => i)
      && |Calls(s)| <= Size(concurrency)
      && |s.linted| <= |targets|
      && (|s.linted| < |targets| ==> forall w :: 0 <= w < |s.workers| ==> s.workers[w] != Returned)
  {
    var s := Run(targets, lint, concurrency, steps).value;
    SubsetSize(Calls(s), UpTo(|s.workers|));
    UpToSize(|s.workers|);
    CountNone(s.workers);
  }

  lemma {:induction false} CountNone(workers: seq<Worker>)
    ensures ReturnedCount(workers) == 0 ==> forall w :: 0 <= w < |workers| ==> workers[w] != Returned
  {
    if workers != [] {
      CountNone(workers[..|workers| - 1]);
    }
  }

  /** Runs are bounded: at most two steps for every target and one more for every worker. */
  lemma RunsAreBounded<T, R>(targets: seq<T>, lint: T -> R, concurrency: int, steps: seq<Step>)
    requires Run(targets, lint, concurrency, steps).Some?
    ensures |steps| <= 2 * |targets| + Size(concurrency)
  {
    var s := Run(targets, lint, concurrency, steps).value;
    SubsetSize(s.results.Keys, UpTo(|s.linted|));
    UpToSize(|s.linted|);
  }

  /** No run gets stuck: some step is possible until every worker has returned. */
  lemma NeverStuck<R>(s: Pool<R>)
    ensures AllReturned(s) <==> forall step :: !Enabled(s, step)
  {
    if !AllReturned(s) {
      var w: nat :| w < |s.workers| && s.workers[w] != Returned;
      assert Enabled(s, if s.workers[w] == Waiting then Claim(w) else Finish(w));
    }
  }

  /**
   * Every schedule ends alike: when all workers have returned, each target was called exactly once and
   * its own result stands at its own place, unless there were targets and no worker at all.
   */
  lemma CompleteRun<T, R>(targets: seq<T>, lint: T -> R, concurrency: int, steps: seq<Step>)
    requires Run(targets, lint, concurrency, steps).Some?
    requires AllReturned(Run(targets, lint, concurrency, steps).value)
    requires concurrency > 0 || targets == []
    ensures
      var s := Run(targets, lint, concurrency, steps).value;
      && s.linted == seq(|targets|, i => i)
      && s.results == (map i: nat | i < |targets| :: lint(targets[i]))
      && |steps| == 2 * |targets| + Size(concurrency)
  {
    var s := Run(targets, lint, concurrency, steps).value;
    hide Run;
    CompleteState(targets, lint, concurrency, s);
  }

  lemma CompleteState<T, R>(targets: seq<T>, lint: T -> R, concurrency: int, s: Pool<R>)
    requires Inv(targets, lint, concurrency, s) && AllReturned(s)
    requires concurrency > 0 || targets == []
    ensures s.linted == seq(|targets|, i => i)
    ensures s.results == (map i: nat | i < |targets| :: lint(targets[i]))
    ensures s.next == |targets| + Size(concurrency) && |s.results| == |targets|
  {
    CountAll(s.workers);
    hide ReturnedCount;
    assert |s.linted| == |targets|;
    forall i: nat | i < |targets| ensures i in s.results {
      assert !InFlight(s, i);
    }
    assert s.results.Keys == UpTo(|targets|);
    UpToSize(|targets|);
  }

  /** Without workers nothing is ever called. */
  lemma NoWorkers<T, R>(targets: seq<T>, lint: T -> R, concurrency: int, steps: seq<Step>)
    requires Run(targets, lint, concurrency, steps).Some? && concurrency <= 0
    ensures Run(targets, lint, concurrency, steps).value.results == map[]
  {
  }

  /** What the run must return: one result for each target, in the order of the targets. */
  function Results<T, R>(targets: seq<T>, lint: T -> R): seq<R> {
    seq(|targets|, i requires 0 <= i < |targets| => lint(targets[i]))
  }

  lemma OneMore<T, R>(targets: seq<T>, lint: T -> R, concurrency: int, steps: seq<Step>, step: Step)
    requires Run(targets, lint, concurrency, steps).Some?
    requires Enabled(Run(targets, lint, concurrency, steps).value, step)
    ensures Inv(targets, lint, concurrency, Run(targets, lint, concurrency, steps).value)
    ensures forall w :: var s := Run(targets, lint, concurrency, steps).value;
      0 <= w < |s.workers| && s.workers[w].Linting? ==> s.workers[w].index < |targets|
    ensures Run(targets, lint, concurrency, steps + [step]) ==
      Some(Take(targets, lint, Run(targets, lint, concurrency, steps).value, step))
  {
    assert (steps + [step])[..|steps|] == steps;
  }

  /** The list without holes, or the target of the first hole. */
  ghost predicate Collected<T, R>(targets: seq<T>, results: map<nat, R>, result: Result<seq<R>, T>) {
    match result
    case Success(out) => |out| == |targets| && forall i: nat :: i < |targets| ==> i in results && out[i] == results[i]
    case Failure(target) =>
      exists i: nat :: i < |targets| && i !in results && target == targets[i] && forall k: nat :: k < i ==> k in results
  }

  lemma CollectedRun<T, R>(
    targets: seq<T>, lint: T -> R, concurrency: int, steps: seq<Step>, result: Result<seq<R>, T>)
    requires Run(targets, lint, concurrency, steps).Some?
    requires AllReturned(Run(targets, lint, concurrency, steps).value)
    requires Collected(targets, Run(targets, lint, concurrency, steps).value.results, result)
    ensures result.Success? <==> concurrency > 0 || targets == []
    ensures result.Success? ==> result.value == Results(targets, lint)
    ensures result.Failure? ==> result.error == targets[0]
  {
    if concurrency > 0 || targets == [] {
      CompleteRun(targets, lint, concurrency, steps);
    } else {
      NoWorkers(targets, lint, concurrency, steps);
      NothingCollected(targets, Run(targets, lint, concurrency, steps).value.results, result);
    }
  }

  lemma NothingCollected<T, R>(targets: seq<T>, results: map<nat, R>, result: Result<seq<R>, T>)
    requires targets != [] && results == map[] && Collected(targets, results, result)
    ensures result == Failure(targets[0])
  {
    var first: nat := 0;
    assert first !in results;
  }

  /** Reading the sparse array back: the first hole is an error. */
  method Collect<T, R>(targets: seq<T>, results: map<nat, R>) returns (result: Result<seq<R>, T>)
    ensures Collected(targets, results, result)
  {
    var out: seq<R> := [];
    for i := 0 to |targets|
      invariant |out| == i
      invariant forall k: nat :: k < i ==> k in results && out[k] == results[k]
    {
      if i !in results {
        return Failure(targets[i]);
      }
      out := out + [results[i]];
    }
    result := Success(out);
  }

  /**
   * The pool under an arbitrary scheduler. The schedule it happened to follow is a legal run, and the
   * missing-result error is raised only if there are targets and no worker.
   */
  method RunAll<T, R>(targets: seq<T>, lint: T -> R, concurrency: int)
    returns (result: Result<seq<R>, T>, ghost steps: seq<Step>)
    ensures Run(targets, lint, concurrency, steps).Some? && AllReturned(Run(targets, lint, concurrency, steps).value)
    ensures result.Success? <==> concurrency > 0 || targets == []
    ensures result.Success? ==> result.value == Results(targets, lint)
    ensures result.Failure? ==> result.error == targets[0]
  {
    var s: Pool<R> := Opened(concurrency);
    steps := [];
    assert Run(targets, lint, concurrency, steps) == Some(s);
    hide Inv, Take, Run, Results;
    while exists w :: 0 <= w < |s.workers| && s.workers[w] != Returned
      invariant Run(targets, lint, concurrency, steps) == Some(s)
      decreases 2 * |targets| + Size(concurrency) - |steps|
    {
      var w: nat :| w < |s.workers| && s.workers[w] != Returned;
      var step := if s.workers[w] == Waiting then Claim(w) else Finish(w);
      OneMore(targets, lint, concurrency, steps, step);
      steps := steps + [step];
      s := Take(targets, lint, s, step);
      RunsAreBounded(targets, lint, concurrency, steps);
    }
    result := Collect(targets, s.results);
    CollectedRun(targets, lint, concurrency, steps, result);
  }
}
