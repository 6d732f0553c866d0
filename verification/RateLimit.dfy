/** The in-memory fixed-window rate limiter (backend/src/rate-limit.ts) and what it bounds. */
module RateLimit {
  import opened Basics

  datatype Input = Input(key: string, limit: int, windowMs: int, nowMs: int)

  datatype Outcome = Outcome(allowed: bool, limit: int, remaining: int, resetAtMs: int)

  datatype Window = Window(count: int, resetAtMs: int)

  type Windows = map<string, Window>

  function Max(a: int, b: int): int
  {
    if a < b then b else a
  }

  /** The window of the key is over at `now`, or there is none. */
  predicate Over(ws: Windows, key: string, now: int)
  {
    key !in ws || ws[key].resetAtMs <= now
  }

  function Consume(ws: Windows, i: Input): (Outcome, Windows)
  {
    if Over(ws, i.key, i.nowMs) then
      var resetAtMs := i.nowMs + i.windowMs;
      (Outcome(true, i.limit, Max(0, i.limit - 1), resetAtMs), ws[i.key := Window(1, resetAtMs)])
    else if ws[i.key].count >= i.limit then
      (Outcome(false, i.limit, 0, ws[i.key].resetAtMs), ws)
    else
      var count := ws[i.key].count + 1;
      (Outcome(true, i.limit, Max(0, i.limit - count), ws[i.key].resetAtMs), ws[i.key := ws[i.key].(count := count)])
  }

  class MemoryStore {
    var windows: Windows

    constructor ()
      ensures windows == map[]
    {
      windows := map[];
    }

    method ConsumeOne(i: Input) returns (r: Outcome)
      modifies this
      ensures (r, windows) == Consume(old(windows), i)
      ensures i.key in windows
      ensures i.key !in old(windows) || old(windows)[i.key].resetAtMs <= i.nowMs ==>
                r.allowed && windows[i.key] == Window(1, i.nowMs + i.windowMs)
      ensures i.key in old(windows) && old(windows)[i.key].resetAtMs > i.nowMs ==>
                var was := old(windows)[i.key];
                && (r.allowed <==> was.count < i.limit)
                && windows[i.key] == Window(if r.allowed then was.count + 1 else was.count, was.resetAtMs)
      ensures r.limit == i.limit && r.resetAtMs == windows[i.key].resetAtMs
      ensures r.remaining == if r.allowed && windows[i.key].count < i.limit then i.limit - windows[i.key].count else 0
      ensures forall k :: k != i.key ==> (k in windows <==> k in old(windows))
      ensures forall k :: k != i.key && k in windows ==> windows[k] == old(windows)[k]
    {
      if i.key !in windows || windows[i.key].resetAtMs <= i.nowMs {
        var resetAtMs := i.nowMs + i.windowMs;
        windows := windows[i.key := Window(1, resetAtMs)];
        return Outcome(true, i.limit, Max(0, i.limit - 1), resetAtMs);
      }
      var current := windows[i.key];
      if current.count >= i.limit {
        return Outcome(false, i.limit, 0, current.resetAtMs);
      }
      current := current.(count := current.count + 1);
      windows := windows[i.key := current];
      r := Outcome(true, i.limit, Max(0, i.limit - current.count), current.resetAtMs);
    }
  }

  // ----- Traces -----

  /** The store after the first `n` requests of a trace. */
  function After(trace: seq<Input>, n: nat): Windows
    requires n <= |trace|
  {
    if n == 0 then map[] else Consume(After(trace, n - 1), trace[n - 1]).1
  }

  function OutcomeAt(trace: seq<Input>, n: nat): Outcome
    requires n < |trace|
  {
    Consume(After(trace, n), trace[n]).0
  }

  ghost predicate TimeOrdered(trace: seq<Input>)
  {
    forall i, j :: 0 <= i < j < |trace| ==> trace[i].nowMs <= trace[j].nowMs
  }

  /** Requests for `key` always come with the same rule; other keys may come in between. */
  ghost predicate FixedRule(trace: seq<Input>, key: string, limit: int, windowMs: int)
  {
    forall i :: 0 <= i < |trace| && trace[i].key == key ==> trace[i].limit == limit && trace[i].windowMs == windowMs
  }

  predicate AllowedAt(trace: seq<Input>, key: string, n: nat)
    requires n < |trace|
  {
    trace[n].key == key && OutcomeAt(trace, n).allowed
  }

  /** How many requests for `key`, from position `n` on, are allowed at a time in `[a, b)`. */
  function AllowedWithin(trace: seq<Input>, key: string, a: int, b: int, n: nat): nat
    requires n <= |trace|
    decreases |trace| - n
  {
    if n == |trace| then 0
    else (if AllowedAt(trace, key, n) && a <= trace[n].nowMs < b then 1 else 0) + AllowedWithin(trace, key, a, b, n + 1)
  }

  /** The number of whole windows that cover a stretch of time. */
  function Windowfuls(stretch: int, windowMs: int): nat
    requires windowMs >= 1
  {
    if stretch <= 0 then 0 else (stretch + windowMs - 1) / windowMs
  }

  lemma QuotientUnique(x: int, w: int, q: int, r: int)
    requires w >= 1 && 0 <= r < w && x == w * q + r
    ensures x / w == q
  {
    var d := q - x / w;
    assert w * d == x % w - r;
    if d >= 1 {
      ScaleMonotone(w, 1, d);
    } else if d <= -1 {
      ScaleMonotone(w, d, -1);
    }
  }

  lemma WindowfulsStep(stretch: int, windowMs: int)
    requires windowMs >= 1 && stretch > 0
    ensures Windowfuls(stretch, windowMs) == 1 + Windowfuls(stretch - windowMs, windowMs)
  {
    var q, r := (stretch - 1) / windowMs, (stretch - 1) % windowMs;
    assert stretch + windowMs - 1 == windowMs * (q + 1) + r;
    QuotientUnique(stretch + windowMs - 1, windowMs, q + 1, r);
    if stretch <= windowMs {
      QuotientUnique(stretch - 1, windowMs, 0, stretch - 1);
    }
  }

  lemma {:induction false} WindowfulsMonotone(x: int, y: int, windowMs: int)
    requires windowMs >= 1 && x <= y
    ensures Windowfuls(x, windowMs) <= Windowfuls(y, windowMs)
    decreases if y > 0 then y else 0
  {
    if x > 0 {
      WindowfulsStep(x, windowMs);
      WindowfulsStep(y, windowMs);
      WindowfulsMonotone(x - windowMs, y - windowMs, windowMs);
    }
  }

  /** What can still be allowed before `b`, seen at time `t`: the rest of the open window, then full windows. */
  function Budget(ws: Windows, key: string, limit: int, windowMs: int, t: int, b: int): int
    requires windowMs >= 1
  {
    if t >= b then 0
    else if Over(ws, key, t) then limit * Windowfuls(b - t, windowMs)
    else limit - ws[key].count + limit * Windowfuls(b - ws[key].resetAtMs, windowMs)
  }

  ghost predicate CountsInRange(ws: Windows, key: string, limit: int)
  {
    key in ws ==> 1 <= ws[key].count <= limit
  }

  lemma BudgetShrinksWithTime(ws: Windows, key: string, limit: int, windowMs: int, t: int, u: int, b: int)
    requires limit >= 1 && windowMs >= 1 && t <= u && CountsInRange(ws, key, limit)
    ensures 0 <= Budget(ws, key, limit, windowMs, u, b) <= Budget(ws, key, limit, windowMs, t, b)
  {
    var start := if Over(ws, key, t) then t else ws[key].resetAtMs;
    WindowfulsMonotone(b - u, b - t, windowMs);
    if !Over(ws, key, t) && Over(ws, key, u) {
      WindowfulsMonotone(b - u, b - ws[key].resetAtMs, windowMs);
      ScaleMonotone(limit, Windowfuls(b - u, windowMs), Windowfuls(b - ws[key].resetAtMs, windowMs));
    }
    ScaleMonotone(limit, Windowfuls(b - u, windowMs), Windowfuls(b - t, windowMs));
    ScaleMonotone(limit, 0, Windowfuls(b - u, windowMs));
    ScaleMonotone(limit, 0, Windowfuls(b - start, windowMs));
  }

  lemma ScaleMonotone(k: int, x: int, y: int)
    requires k >= 0 && x <= y
    ensures k * x <= k * y
  {
  }

  /** One request spends from the budget what it is allowed. */
  lemma RequestSpendsBudget(ws: Windows, i: Input, key: string, limit: int, windowMs: int, b: int)
    requires limit >= 1 && windowMs >= 1 && CountsInRange(ws, key, limit)
    requires i.key == key ==> i.limit == limit && i.windowMs == windowMs
    ensures var (r, after) := Consume(ws, i);
            && CountsInRange(after, key, limit)
            && (if i.key == key && r.allowed && i.nowMs < b then 1 else 0)
                 + Budget(after, key, limit, windowMs, i.nowMs, b)
               <= Budget(ws, key, limit, windowMs, i.nowMs, b)
  {
    if i.key == key && Over(ws, key, i.nowMs) && i.nowMs < b {
      var rest := Windowfuls(b - i.nowMs - windowMs, windowMs);
      WindowfulsStep(b - i.nowMs, windowMs);
      assert limit * (1 + rest) == limit + limit * rest;
    }
  }

  lemma {:induction false} AllowedWithinBudget(trace: seq<Input>, key: string, limit: int, windowMs: int,
                                               a: int, b: int, n: nat, t: int)
    requires limit >= 1 && windowMs >= 1 && n <= |trace|
    requires TimeOrdered(trace) && FixedRule(trace, key, limit, windowMs)
    requires CountsInRange(After(trace, n), key, limit)
    requires n < |trace| ==> t <= trace[n].nowMs
    ensures AllowedWithin(trace, key, a, b, n) <= Budget(After(trace, n), key, limit, windowMs, t, b)
    decreases |trace| - n
  {
    if n == |trace| {
      BudgetShrinksWithTime(After(trace, n), key, limit, windowMs, t, t, b);
    } else {
      BudgetShrinksWithTime(After(trace, n), key, limit, windowMs, t, trace[n].nowMs, b);
      RequestSpendsBudget(After(trace, n), trace[n], key, limit, windowMs, b);
      AllowedWithinBudget(trace, key, limit, windowMs, a, b, n + 1, trace[n].nowMs);
    }
  }

  lemma {:induction false} CountsStayInRange(trace: seq<Input>, key: string, limit: int, windowMs: int, n: nat)
    requires limit >= 1 && windowMs >= 1 && n <= |trace| && FixedRule(trace, key, limit, windowMs)
    ensures CountsInRange(After(trace, n), key, limit)
  {
    if n > 0 {
      CountsStayInRange(trace, key, limit, windowMs, n - 1);
    }
  }

  /** Seen from inside the interval, no more than a window's worth beyond its full windows can be allowed. */
  lemma BudgetIsBounded(ws: Windows, key: string, limit: int, windowMs: int, t: int, a: int, length: int)
    requires limit >= 1 && windowMs >= 1 && length > 0 && a <= t && CountsInRange(ws, key, limit)
    ensures Budget(ws, key, limit, windowMs, t, a + length) <= limit * (Windowfuls(length, windowMs) + 1)
  {
    hide Windowfuls;
    var b := a + length;
    var from := if Over(ws, key, t) then t else ws[key].resetAtMs;
    WindowfulsMonotone(b - from, length, windowMs);
    ScaleMonotone(limit, Windowfuls(b - from, windowMs), Windowfuls(length, windowMs));
    ScaleMonotone(limit, 0, Windowfuls(length, windowMs) + 1);
    assert limit * (Windowfuls(length, windowMs) + 1) == limit * Windowfuls(length, windowMs) + limit;
  }

  lemma {:induction false} IntervalBoundFrom(trace: seq<Input>, key: string, limit: int, windowMs: int,
                                             a: int, length: int, n: nat)
    requires limit >= 1 && windowMs >= 1 && length > 0 && n <= |trace|
    requires TimeOrdered(trace) && FixedRule(trace, key, limit, windowMs)
    ensures AllowedWithin(trace, key, a, a + length, n) <= limit * (Windowfuls(length, windowMs) + 1)
    decreases |trace| - n
  {
    hide Windowfuls, Budget, After, CountsInRange;
    if n == |trace| {
      ScaleMonotone(limit, 0, Windowfuls(length, windowMs) + 1);
    } else if trace[n].nowMs < a {
      IntervalBoundFrom(trace, key, limit, windowMs, a, length, n + 1);
    } else {
      CountsStayInRange(trace, key, limit, windowMs, n);
      AllowedWithinBudget(trace, key, limit, windowMs, a, a + length, n, trace[n].nowMs);
      BudgetIsBounded(After(trace, n), key, limit, windowMs, trace[n].nowMs, a, length);
    }
  }

  /** Any half-open interval of length L > 0 contains at most limit * (ceil(L / W) + 1) allowed requests of a key. */
  lemma IntervalBound(trace: seq<Input>, key: string, limit: int, windowMs: int, a: int, length: int)
    requires limit >= 1 && windowMs >= 1 && length > 0
    requires TimeOrdered(trace) && FixedRule(trace, key, limit, windowMs)
    ensures AllowedWithin(trace, key, a, a + length, 0) <= limit * ((length + windowMs - 1) / windowMs + 1)
  {
    IntervalBoundFrom(trace, key, limit, windowMs, a, length, 0);
  }

  // ----- When a request is rejected -----

  /** How many requests for `key` at positions `[m, n)` are allowed. */
  function AllowedBetween(trace: seq<Input>, key: string, m: nat, n: nat): nat
    requires m <= n <= |trace|
    decreases n - m
  {
    if m == n then 0 else AllowedBetween(trace, key, m, n - 1) + if AllowedAt(trace, key, n - 1) then 1 else 0
  }

  /** The request at `m` opened the window that is current before position `n`. */
  ghost predicate Opened(trace: seq<Input>, key: string, windowMs: int, m: nat, n: nat)
    requires n <= |trace|
  {
    && m < n && trace[m].key == key && Over(After(trace, m), key, trace[m].nowMs)
    && key in After(trace, n) && After(trace, n)[key].resetAtMs == trace[m].nowMs + windowMs
    && After(trace, n)[key].count == AllowedBetween(trace, key, m, n)
  }

  lemma {:induction false} WindowCountsItsRequests(trace: seq<Input>, key: string, limit: int, windowMs: int, n: nat)
    returns (m: nat)
    requires n <= |trace| && FixedRule(trace, key, limit, windowMs)
    requires key in After(trace, n)
    ensures Opened(trace, key, windowMs, m, n)
  {
    var ws := After(trace, n - 1);
    if trace[n - 1].key == key && Over(ws, key, trace[n - 1].nowMs) {
      m := n - 1;
      assert AllowedBetween(trace, key, n - 1, n - 1) == 0;
    } else {
      m := WindowCountsItsRequests(trace, key, limit, windowMs, n - 1);
    }
  }

  /** A request is rejected only inside a window in which exactly `limit` requests were allowed. */
  lemma RejectionMeansFullWindow(trace: seq<Input>, key: string, limit: int, windowMs: int, n: nat) returns (m: nat)
    requires limit >= 1 && windowMs >= 1
    requires n < |trace| && trace[n].key == key && FixedRule(trace, key, limit, windowMs)
    requires !OutcomeAt(trace, n).allowed
    ensures Opened(trace, key, windowMs, m, n)
    ensures trace[n].nowMs < trace[m].nowMs + windowMs == OutcomeAt(trace, n).resetAtMs
    ensures AllowedBetween(trace, key, m, n) == limit
    ensures OutcomeAt(trace, n).limit == limit && OutcomeAt(trace, n).remaining == 0
  {
    m := WindowCountsItsRequests(trace, key, limit, windowMs, n);
    CountsStayInRange(trace, key, limit, windowMs, n);
  }

  /** An allowed request is told how much of its window is left after it, and when that window ends. */
  lemma RemainderIsWhatIsLeft(trace: seq<Input>, key: string, limit: int, windowMs: int, n: nat) returns (m: nat)
    requires limit >= 1 && windowMs >= 1
    requires n < |trace| && trace[n].key == key && FixedRule(trace, key, limit, windowMs)
    requires OutcomeAt(trace, n).allowed
    ensures Opened(trace, key, windowMs, m, n + 1)
    ensures trace[n].nowMs < trace[m].nowMs + windowMs == OutcomeAt(trace, n).resetAtMs
    ensures OutcomeAt(trace, n).limit == limit
    ensures OutcomeAt(trace, n).remaining == limit - AllowedBetween(trace, key, m, n + 1) >= 0
  {
    m := WindowCountsItsRequests(trace, key, limit, windowMs, n + 1);
    CountsStayInRange(trace, key, limit, windowMs, n + 1);
  }

  // ----- What a rejected client is told -----

  function RetryAfterSeconds(nowMs: int, resetAtMs: int): int
  {
    Max(1, (resetAtMs - nowMs + 999) / 1000)
  }

  /** The whole seconds a rejected client is told to wait are the least that reach the end of the window. */
  lemma RetryIsLeastWait(trace: seq<Input>, key: string, limit: int, windowMs: int, n: nat, seconds: int)
    requires limit >= 1 && windowMs >= 1
    requires n < |trace| && trace[n].key == key && FixedRule(trace, key, limit, windowMs)
    requires !OutcomeAt(trace, n).allowed
    ensures var (now, resetAtMs) := (trace[n].nowMs, OutcomeAt(trace, n).resetAtMs);
            seconds >= RetryAfterSeconds(now, resetAtMs) <==> now + 1000 * seconds >= resetAtMs
  {
    hide After;
    var m := RejectionMeansFullWindow(trace, key, limit, windowMs, n);
    var wait := OutcomeAt(trace, n).resetAtMs - trace[n].nowMs;
    assert wait >= 1;
  }

  /** A client that waits as long as told, with nobody else spending the key in between, is then allowed. */
  lemma WaitingSuffices(trace: seq<Input>, key: string, limit: int, windowMs: int, n: nat, k: nat)
    requires limit >= 1 && windowMs >= 1
    requires n < k < |trace| && trace[n].key == trace[k].key == key && FixedRule(trace, key, limit, windowMs)
    requires forall j :: n < j < k ==> trace[j].key != key
    requires !OutcomeAt(trace, n).allowed
    requires trace[k].nowMs >= trace[n].nowMs + 1000 * RetryAfterSeconds(trace[n].nowMs, OutcomeAt(trace, n).resetAtMs)
    ensures OutcomeAt(trace, k).allowed
  {
    RetryIsLeastWait(trace, key, limit, windowMs, n, RetryAfterSeconds(trace[n].nowMs, OutcomeAt(trace, n).resetAtMs));
    OthersLeaveWindow(trace, key, n, k);
  }

  lemma {:induction false} OthersLeaveWindow(trace: seq<Input>, key: string, n: nat, k: nat)
    requires n < k < |trace| && trace[n].key == key && !OutcomeAt(trace, n).allowed
    requires forall j :: n < j < k ==> trace[j].key != key
    ensures key in After(trace, k) && After(trace, k)[key].resetAtMs == OutcomeAt(trace, n).resetAtMs
  {
    if k > n + 1 { OthersLeaveWindow(trace, key, n, k - 1); }
  }

  // ----- The rule has to be positive -----

  /** `normalizePositiveInteger` on finite numbers. */
  function NormalizePositiveInteger(value: Option<real>, fallback: int): int
  {
    if value.Some? && value.value > 0.0 then value.value.Floor else fallback
  }

  /** The normalised value is positive, as its name says, except for fractions below one: those become zero. */
  lemma NormalizedIsPositive(value: Option<real>, fallback: int)
    requires fallback >= 1
    ensures NormalizePositiveInteger(value, fallback) >= 1 <==> !(value.Some? && 0.0 < value.value < 1.0)
    ensures NormalizePositiveInteger(value, fallback) >= 0
    ensures var n := NormalizePositiveInteger(value, fallback);
            if value.Some? && value.value > 0.0 then n as real <= value.value < n as real + 1.0 else n == fallback
  {
  }

  /** Without a positive limit the bound fails at once: the request that opens a window is always allowed. */
  lemma LimitBelowOneStillAllows(key: string, limit: int, windowMs: int, a: int, length: int)
    requires limit <= 0 && windowMs >= 1 && length > 0
    ensures AllowedWithin([Input(key, limit, windowMs, a)], key, a, a + length, 0)
          > limit * (Windowfuls(length, windowMs) + 1)
  {
    var trace := [Input(key, limit, windowMs, a)];
    assert AllowedAt(trace, key, 0);
    assert AllowedWithin(trace, key, a, a + length, 1) == 0;
    ScaleMonotone(-limit, 0, Windowfuls(length, windowMs) + 1);
  }

  /** The bound on one interval, if the trace and the interval are such as the bound is about. */
  ghost predicate BoundedOn(trace: seq<Input>, key: string, limit: int, windowMs: int, a: int, length: int)
    requires windowMs >= 1
  {
    TimeOrdered(trace) && FixedRule(trace, key, limit, windowMs) && length > 0 ==>
      AllowedWithin(trace, key, a, a + length, 0) <= limit * (Windowfuls(length, windowMs) + 1)
  }

  /** The exact condition: the bound holds of every trace and interval if and only if the limit is positive. */
  lemma BoundHoldsExactly(key: string, limit: int, windowMs: int)
    requires windowMs >= 1
    ensures (forall trace, a, length :: BoundedOn(trace, key, limit, windowMs, a, length)) <==> limit >= 1
  {
    if limit >= 1 {
      forall trace, a, length ensures BoundedOn(trace, key, limit, windowMs, a, length) {
        if TimeOrdered(trace) && FixedRule(trace, key, limit, windowMs) && length > 0 {
          IntervalBoundFrom(trace, key, limit, windowMs, a, length, 0);
        }
      }
    } else {
      LimitBelowOneStillAllows(key, limit, windowMs, 0, 1);
      assert !BoundedOn([Input(key, limit, windowMs, 0)], key, limit, windowMs, 0, 1);
    }
  }

  /** Without a positive window nothing is ever rejected. */
  lemma {:induction false} WindowBelowOneNeverRejects(trace: seq<Input>, key: string, limit: int, windowMs: int, n: nat)
    requires windowMs <= 0 && TimeOrdered(trace) && FixedRule(trace, key, limit, windowMs)
    requires n < |trace| && trace[n].key == key
    ensures OutcomeAt(trace, n).allowed
  {
    if key in After(trace, n) {
      var m := WindowCountsItsRequests(trace, key, limit, windowMs, n);
      assert trace[m].nowMs <= trace[n].nowMs;
    }
  }
}
