/** The retry policy of `TwitterClient.fetch` (twarc.py:55-78) as a
    function. The network is an input: `net(k)` is the answer to the k-th
    GET issued. A GET either answers with a status and a body or raises
    (`TransportError`); a 200 whose body does not decode raises at the
    same point of the `try`, so it is a `TransportError` here too. */
module Retry {
  import opened Wrappers

  datatype Response = Response(status: int, body: string) | TransportError

  predicate IsOk(resp: Response)
  {
    resp.Response? && resp.status == 200
  }

  /** What one attempt of `fetch` does, in order. */
  datatype Event =
    | Pause            // time.sleep(1) before every attempt
    | Admit            // self.check()
    | Get(k: nat)      // the k-th GET
    | Backoff(secs: int)  // the sleep after a non-200

  /** The exception `fetch` raises when it runs out of tries. */
  datatype FetchError = TooManyTries

  /** The outcome of one `fetch` and the index of the next GET after it. */
  datatype Outcome = Outcome(result: Result<string, FetchError>, next: nat)

  function Pow2(n: nat): (r: nat)
    ensures r >= 1
  {
    if n == 0 then 1 else 2 * Pow2(n - 1)
  }

  /** `fetch(url, tries)` whose first GET is the k-th. The recursive call
      after a non-200 sits inside the `try`, so a "too many tries" raised
      there is caught by the `except` and one more `fetch(url, tries - 1)`
      follows; a negative backoff makes `time.sleep` raise, which the same
      `except` catches. */
  function Fetch(tries: nat, net: nat -> Response, k: nat): (r: Outcome)
    ensures k <= r.next
    ensures tries == 0 ==> r.result.Err? && r.next == k
    decreases tries
  {
    if tries == 0 then Outcome(Err(TooManyTries), k)
    else if IsOk(net(k)) then Outcome(Ok(net(k).body), k + 1)
    else
      var first := Fetch(tries - 1, net, k + 1);
      if net(k).TransportError? || BackoffSecs(tries) < 0 || first.result.Ok? then first
      else Fetch(tries - 1, net, first.next)
  }

  /** The events of the `fetch` that `Fetch(tries, net, k)` describes, in
      the order they happen. */
  function Trace(tries: nat, net: nat -> Response, k: nat): seq<Event>
    decreases tries
  {
    if tries == 0 then []
    else if IsOk(net(k)) then Attempt(k)
    else
      var first := Fetch(tries - 1, net, k + 1);
      if net(k).TransportError? || BackoffSecs(tries) < 0 then Attempt(k) + Trace(tries - 1, net, k + 1)
      else if first.result.Ok? then Attempt(k) + [Backoff(BackoffSecs(tries))] + Trace(tries - 1, net, k + 1)
      else Attempt(k) + [Backoff(BackoffSecs(tries))] + Trace(tries - 1, net, k + 1) + Trace(tries - 1, net, first.next)
  }

  /** `fetch` with `tries` left issues at most 2^tries - 1 GETs, and a body
      it returns is that of a 200 answer to its last GET. */
  lemma {:induction false} FetchBounded(tries: nat, net: nat -> Response, k: nat)
    ensures Bounded(tries, net, k, Fetch(tries, net, k))
    decreases tries
  {
    if tries > 0 && !IsOk(net(k)) {
      var mid := Fetch(tries - 1, net, k + 1).next;
      FetchBounded(tries - 1, net, k + 1);
      FetchBounded(tries - 1, net, mid);
      BoundedStep(tries, net, k, mid);
    }
  }

  /** A run from the k-th GET with `tries` left ends before GET
      k + 2^tries - 1, and a body it returns is that of its last GET. */
  predicate Bounded(tries: nat, net: nat -> Response, k: nat, r: Outcome)
  {
    && r.next <= k + Pow2(tries) - 1
    && (r.result.Ok? ==> r.next > k && net(r.next - 1) == Response(200, r.result.value))
  }

  /** The step of `FetchBounded` after a failed first GET. */
  lemma BoundedStep(tries: nat, net: nat -> Response, k: nat, mid: nat)
    requires 0 < tries && !IsOk(net(k))
    requires Fetch(tries - 1, net, k + 1).next == mid
    requires Bounded(tries - 1, net, k + 1, Fetch(tries - 1, net, k + 1))
    requires Bounded(tries - 1, net, mid, Fetch(tries - 1, net, mid))
    ensures Bounded(tries, net, k, Fetch(tries, net, k))
  {
    var first := Fetch(tries - 1, net, k + 1);
    var second := Fetch(tries - 1, net, mid);
    var r := Fetch(tries, net, k);
    if net(k).TransportError? || BackoffSecs(tries) < 0 || first.result.Ok? {
      assert r == first;
    } else {
      assert r == second;
    }
  }

  /** The events of one attempt. */
  function Attempt(k: nat): seq<Event>
  {
    [Pause, Admit, Get(k)]
  }

  /** The backoff after a non-200 with `tries` left. */
  function BackoffSecs(tries: int): int
  {
    (6 - tries) * 2
  }

  /** The number of GETs in a trace. */
  function Gets(trace: seq<Event>): nat
  {
    if trace == [] then 0 else Gets(trace[..|trace| - 1]) + (if trace[|trace| - 1].Get? then 1 else 0)
  }

  /** The backoff sleeps of a trace, in order. */
  function Backoffs(trace: seq<Event>): seq<int>
  {
    if trace == [] then []
    else Backoffs(trace[..|trace| - 1]) + (if trace[|trace| - 1].Backoff? then [trace[|trace| - 1].secs] else [])
  }

  lemma {:induction false} GetsAppend(a: seq<Event>, b: seq<Event>)
    ensures Gets(a + b) == Gets(a) + Gets(b)
    decreases |b|
  {
    if b == [] {
      assert a + b == a;
    } else {
      GetsAppend(a, b[..|b| - 1]);
      assert (a + b)[..|a + b| - 1] == a + b[..|b| - 1];
    }
  }

  lemma {:induction false} BackoffsAppend(a: seq<Event>, b: seq<Event>)
    ensures Backoffs(a + b) == Backoffs(a) + Backoffs(b)
    decreases |b|
  {
    if b == [] {
      assert a + b == a;
    } else {
      BackoffsAppend(a, b[..|b| - 1]);
      assert (a + b)[..|a + b| - 1] == a + b[..|b| - 1];
    }
  }

  /** The events of one attempt: one GET, no backoff. */
  lemma AttemptEvents(k: nat)
    ensures Gets([Pause, Admit, Get(k)]) == 1 && Backoffs([Pause, Admit, Get(k)]) == []
  {
    var a := [Pause, Admit, Get(k)];
    var a2, a1 := [Pause, Admit], [Pause];
    assert a[..|a| - 1] == a2 && a2[..|a2| - 1] == a1 && a1[..|a1| - 1] == [];
    assert Gets(a1) == 0 && Backoffs(a1) == [];
    assert Gets(a2) == 0 && Backoffs(a2) == [];
  }

  /** The events of one backoff: no GET, one sleep. */
  lemma BackoffEvent(secs: int)
    ensures Gets([Backoff(secs)]) == 0 && Backoffs([Backoff(secs)]) == [secs]
  {
    assert [Backoff(secs)][..0] == [];
  }

  /** Every GET `fetch` issues appears once in its trace, so the trace
      accounts for every request it made. */
  lemma {:induction false} FetchTraceCountsGets(tries: nat, net: nat -> Response, k: nat)
    ensures CountsGets(tries, net, k)
    decreases tries
  {
    if tries > 0 {
      var mid := Fetch(tries - 1, net, k + 1).next;
      FetchTraceCountsGets(tries - 1, net, k + 1);
      FetchTraceCountsGets(tries - 1, net, mid);
      TraceCountsGetsStep(tries, net, k, mid);
    }
  }

  /** The trace of a `fetch` holds one GET per request it made. */
  ghost predicate CountsGets(tries: nat, net: nat -> Response, k: nat)
  {
    Gets(Trace(tries, net, k)) == Fetch(tries, net, k).next - k
  }

  /** The step of `FetchTraceCountsGets`, from what it states of the nested
      calls. */
  lemma TraceCountsGetsStep(tries: nat, net: nat -> Response, k: nat, mid: nat)
    requires 0 < tries && Fetch(tries - 1, net, k + 1).next == mid
    requires CountsGets(tries - 1, net, k + 1) && CountsGets(tries - 1, net, mid)
    ensures CountsGets(tries, net, k)
  {
    if IsOk(net(k)) {
      AttemptEvents(k);
    } else if net(k).TransportError? || (6 - tries) * 2 < 0 {
      RaisedTraceCountsGets(tries, net, k);
    } else {
      RetriedTraceCountsGets(tries, net, k, mid);
    }
  }

  /** The part of `FetchTraceCountsGets` for an attempt that raised and
      is retried at once. */
  lemma RaisedTraceCountsGets(tries: nat, net: nat -> Response, k: nat)
    requires 0 < tries && !IsOk(net(k)) && (net(k).TransportError? || (6 - tries) * 2 < 0)
    requires Gets(Trace(tries - 1, net, k + 1)) == Fetch(tries - 1, net, k + 1).next - k - 1
    ensures Gets(Trace(tries, net, k)) == Fetch(tries, net, k).next - k
  {
    AttemptEvents(k);
    GetsAppend([Pause, Admit, Get(k)], Trace(tries - 1, net, k + 1));
  }

  /** The part of `FetchTraceCountsGets` for a non-200 followed by a
      backoff and one or two retries. */
  lemma {:induction false} RetriedTraceCountsGets(tries: nat, net: nat -> Response, k: nat, mid: nat)
    requires 0 < tries && net(k).Response? && net(k).status != 200 && (6 - tries) * 2 >= 0
    requires Fetch(tries - 1, net, k + 1).next == mid
    requires Gets(Trace(tries - 1, net, k + 1)) == mid - k - 1
    requires Gets(Trace(tries - 1, net, mid)) == Fetch(tries - 1, net, mid).next - mid
    ensures Gets(Trace(tries, net, k)) == Fetch(tries, net, k).next - k
  {
    var attempt := [Pause, Admit, Get(k)];
    var b := [Backoff((6 - tries) * 2)];
    var first := Fetch(tries - 1, net, k + 1);
    AttemptEvents(k);
    BackoffEvent((6 - tries) * 2);
    GetsAppend(attempt, b);
    var firstTrace := Trace(tries - 1, net, k + 1);
    GetsAppend(attempt + b, firstTrace);
    if first.result.Err? {
      GetsAppend(attempt + b + firstTrace, Trace(tries - 1, net, mid));
      assert Trace(tries, net, k) == attempt + b + firstTrace + Trace(tries - 1, net, mid);
    } else {
      assert Trace(tries, net, k) == attempt + b + firstTrace;
    }
  }

  /** `fetch` returns the body of the first 200 it sees: every GET before
      the one it returns from, and every GET of a `fetch` that raises, got
      a non-200 or raised. */
  lemma {:induction false} FetchEarlierAttemptsFailed(tries: nat, net: nat -> Response, k: nat)
    ensures var r := Fetch(tries, net, k);
      forall i | k <= i < r.next && (r.result.Err? || i < r.next - 1) :: !IsOk(net(i))
    decreases tries
  {
    if tries > 0 {
      var mid := Fetch(tries - 1, net, k + 1).next;
      FetchEarlierAttemptsFailed(tries - 1, net, k + 1);
      FetchEarlierAttemptsFailed(tries - 1, net, mid);
      EarlierAttemptsFailedStep(tries, net, k, mid);
    }
  }

  /** Every GET in [from, run.next) before the one `run` returns from
      failed. */
  ghost predicate FailedBefore(run: Outcome, net: nat -> Response, from: nat)
  {
    forall i | from <= i < run.next && (run.result.Err? || i < run.next - 1) :: !IsOk(net(i))
  }

  /** The step of `FetchEarlierAttemptsFailed`. */
  lemma EarlierAttemptsFailedStep(tries: nat, net: nat -> Response, k: nat, mid: nat)
    requires 0 < tries && Fetch(tries - 1, net, k + 1).next == mid
    requires FailedBefore(Fetch(tries - 1, net, k + 1), net, k + 1) && FailedBefore(Fetch(tries - 1, net, mid), net, mid)
    ensures FailedBefore(Fetch(tries, net, k), net, k)
  {
  }

  /** When every answer is a non-200 status and t <= 6, `fetch(url, t)`
      issues 2^t - 1 GETs before it raises: f(0) = 0 and
      f(t) = 1 + 2 f(t - 1), so 31 for the default of five tries, not five.
      (When every GET raises instead, it issues t GETs.) */
  lemma {:induction false} FetchAllFailing(tries: nat, net: nat -> Response, k: nat)
    requires tries <= 6
    requires forall i :: Rejected(net(i))
    ensures Fetch(tries, net, k) == Outcome(Err(TooManyTries), k + Pow2(tries) - 1)
    decreases tries
  {
    if tries > 0 {
      var mid := k + Pow2(tries - 1);
      FetchAllFailing(tries - 1, net, k + 1);
      FetchAllFailing(tries - 1, net, mid);
      AllFailingStep(tries, net, k, mid);
    }
  }

  /** A non-200 answer. */
  predicate Rejected(resp: Response)
  {
    resp.Response? && resp.status != 200
  }

  /** The step of `FetchAllFailing`: a non-200 whose nested calls both
      raise after 2^(t-1) - 1 GETs each. */
  lemma AllFailingStep(tries: nat, net: nat -> Response, k: nat, mid: nat)
    requires 0 < tries <= 6 && Rejected(net(k)) && mid == k + Pow2(tries - 1)
    requires Fetch(tries - 1, net, k + 1) == Outcome(Err(TooManyTries), mid)
    requires Fetch(tries - 1, net, mid) == Outcome(Err(TooManyTries), mid + Pow2(tries - 1) - 1)
    ensures Fetch(tries, net, k) == Outcome(Err(TooManyTries), k + Pow2(tries) - 1)
  {
  }

  /** From seven tries up the backoff (6 - t) * 2 is negative, so
      `time.sleep` raises inside the `try` (twarc.py:72) and the single
      retry of the `except` (twarc.py:78) is outside it: with every answer
      a non-200, f(t) = 1 + f(t - 1), which is 63 + (t - 6) GETs. */
  lemma {:induction false} FetchAllFailingPastSix(tries: nat, net: nat -> Response, k: nat)
    requires 6 < tries
    requires forall i :: Rejected(net(i))
    ensures Fetch(tries, net, k) == Outcome(Err(TooManyTries), k + 63 + (tries - 6))
    decreases tries
  {
    if tries == 7 {
      FetchAllFailing(6, net, k + 1);
    } else {
      FetchAllFailingPastSix(tries - 1, net, k + 1);
    }
  }

  /** The default budget of five tries allows 31 GETs. */
  lemma FetchDefaultBudget(net: nat -> Response)
    requires forall i :: Rejected(net(i))
    ensures Fetch(5, net, 0) == Outcome(Err(TooManyTries), 31)
  {
    FetchAllFailing(5, net, 0);
  }

  /** Four failing answers and then a 200: `fetch` returns the 200's body
      after backoffs of 2, 4, 6 and 8 seconds. */
  lemma FetchFourFailuresThenSuccess()
    ensures var net := (i: nat) => if i < 4 then Response(503, "") else Response(200, "page");
      && Fetch(5, net, 0) == Outcome(Ok("page"), 5)
      && Backoffs(Trace(5, net, 0)) == [2, 4, 6, 8]
  {
    var net := (i: nat) => if i < 4 then Response(503, "") else Response(200, "page");
    var t1 := Trace(1, net, 4);
    assert t1 == [Pause, Admit, Get(4)];
    var t2 := Trace(2, net, 3);
    assert t2 == [Pause, Admit, Get(3)] + [Backoff(8)] + t1;
    var t3 := Trace(3, net, 2);
    assert t3 == [Pause, Admit, Get(2)] + [Backoff(6)] + t2;
    var t4 := Trace(4, net, 1);
    assert t4 == [Pause, Admit, Get(1)] + [Backoff(4)] + t3;
    assert Trace(5, net, 0) == [Pause, Admit, Get(0)] + [Backoff(2)] + t4;
    assert Fetch(5, net, 0) == Outcome(Ok("page"), 5);
    AttemptEvents(0); AttemptEvents(1); AttemptEvents(2); AttemptEvents(3); AttemptEvents(4);
    BackoffEvent(2); BackoffEvent(4); BackoffEvent(6); BackoffEvent(8);
    var p0, p1, p2, p3 := [Pause, Admit, Get(0)], [Pause, Admit, Get(1)], [Pause, Admit, Get(2)], [Pause, Admit, Get(3)];
    BackoffsAppend(p0, [Backoff(2)]);
    BackoffsAppend(p1, [Backoff(4)]);
    BackoffsAppend(p2, [Backoff(6)]);
    BackoffsAppend(p3, [Backoff(8)]);
    BackoffsAppend(p3 + [Backoff(8)], t1);
    BackoffsAppend(p2 + [Backoff(6)], t2);
    BackoffsAppend(p1 + [Backoff(4)], t3);
    BackoffsAppend(p0 + [Backoff(2)], t4);
  }
}
