/** `TwitterClient` (twarc.py:26-130): the object that owns the quota
    fields `remaining` and `reset` and issues every request through them.
    The status endpoint, the clock and the API are inputs: a `Probe` per
    pass of `check`'s loop, `net(k)` for the k-th GET of `fetch`, and
    `lookup(body)` for the statuses a lookup POST returns. */
module Client {
  import opened Wrappers
  import opened Quota
  import Retry
  import Text

  /** A post as the API returns it: its `id_str` read as a number, and the
      rest of its JSON. */
  datatype Status = Status(id: int, json: string)

  /** One lookup request of `TwitterClient.hydrate`: the POST body and the
      statuses that came back. */
  datatype Lookup = Lookup(body: string, statuses: seq<Status>)

  /** Why a `fetch` of the client did not return a body: it ran out of
      tries, or its own `check` (outside the `try`) did not admit it. */
  datatype FetchFailure = TooManyTries | CheckFailed(end: CheckEnd)

  /** The result of a `fetch`, the fields after it, and the indices of the
      next attempt and of the next GET. */
  datatype FetchRun = FetchRun(result: Result<string, FetchFailure>, state: QuotaState, attempt: nat, next: nat)

  /** `fetch(url, tries)` (twarc.py:55-78) of a client with fields `s`,
      whose first attempt is the a-th and whose first GET is the k-th.
      Attempt j runs `check` on the probes `probes(j)`; GET k answers
      `net(k)`. The nested call after a non-200 sits inside the `try`:
      whatever it raises (too many tries, or a ping of its `check`) is
      caught and one more `fetch(url, tries - 1)` follows. A `check` that
      stays blocked never returns, so nothing is caught. The nested call
      of the `except` branch, and the first `check`, are outside the
      `try`, so what they raise escapes. */
  function FetchSpec(s: QuotaState, tries: nat, net: nat -> Retry.Response, probes: nat -> seq<Probe>,
                     a: nat, k: nat): (r: FetchRun)
    decreases tries
  {
    if tries == 0 then FetchRun(Err(TooManyTries), s, a, k)
    else
      var c := CheckSpec(s, probes(a));
      if c.end != Admitted then FetchRun(Err(CheckFailed(c.end)), c.state, a + 1, k)
      else if Retry.IsOk(net(k)) then FetchRun(Ok(net(k).body), c.state, a + 1, k + 1)
      else
        var first := FetchSpec(c.state, tries - 1, net, probes, a + 1, k + 1);
        if net(k).TransportError? || Retry.BackoffSecs(tries) < 0 || first.result.Ok? || first.result == Err(CheckFailed(Blocked))
        then first
        else FetchSpec(first.state, tries - 1, net, probes, first.attempt, first.next)
  }

  /** `FetchSpec` after an admitted attempt whose GET failed, given the
      run of the nested call. */
  lemma FetchSpecRetries(s: QuotaState, tries: nat, net: nat -> Retry.Response, probes: nat -> seq<Probe>,
                         a: nat, k: nat, admitted: QuotaState, first: FetchRun)
    requires 0 < tries && !Retry.IsOk(net(k))
    requires CheckSpec(s, probes(a)).end == Admitted && CheckSpec(s, probes(a)).state == admitted
    requires first == FetchSpec(admitted, tries - 1, net, probes, a + 1, k + 1)
    ensures FetchSpec(s, tries, net, probes, a, k) ==
      if net(k).TransportError? || Retry.BackoffSecs(tries) < 0 || first.result.Ok? || first.result == Err(CheckFailed(Blocked))
      then first
      else FetchSpec(first.state, tries - 1, net, probes, first.attempt, first.next)
  {
  }

  /** Run `r` from attempt `a` and GET `k` made at most 2^tries - 1
      attempts and at most one GET per attempt, and when it ended on a
      `check` that did not admit, no GET followed that `check`: it made
      fewer GETs than attempts. */
  predicate Paced(tries: nat, a: nat, k: nat, r: FetchRun)
  {
    && a <= r.attempt <= a + Retry.Pow2(tries) - 1
    && k <= r.next
    && r.next - k <= r.attempt - a
    && (r.result.Err? && r.result.error.CheckFailed? ==> r.next - k < r.attempt - a)
  }

  /** Every attempt of `fetch` runs its own `check` before its GET, the
      nested retries make at most 2^tries - 1 attempts, and a `fetch` that
      fails on a `check` made no GET after it. */
  lemma {:induction false} FetchSpecPaced(s: QuotaState, tries: nat, net: nat -> Retry.Response,
                                          probes: nat -> seq<Probe>, a: nat, k: nat)
    ensures Paced(tries, a, k, FetchSpec(s, tries, net, probes, a, k))
    decreases tries
  {
    if tries > 0 && CheckSpec(s, probes(a)).end == Admitted && !Retry.IsOk(net(k)) {
      var first := FetchSpec(CheckSpec(s, probes(a)).state, tries - 1, net, probes, a + 1, k + 1);
      FetchSpecPaced(CheckSpec(s, probes(a)).state, tries - 1, net, probes, a + 1, k + 1);
      FetchSpecPaced(first.state, tries - 1, net, probes, first.attempt, first.next);
      PacedStep(s, tries, net, probes, a, k, first);
    } else {
      PacedAtOnce(s, tries, net, probes, a, k);
    }
  }

  /** `FetchSpecPaced` for a `fetch` that ends at its first attempt. */
  lemma PacedAtOnce(s: QuotaState, tries: nat, net: nat -> Retry.Response, probes: nat -> seq<Probe>, a: nat, k: nat)
    requires tries == 0 || CheckSpec(s, probes(a)).end != Admitted || Retry.IsOk(net(k))
    ensures Paced(tries, a, k, FetchSpec(s, tries, net, probes, a, k))
  {
  }

  /** The step of `FetchSpecPaced` after an admitted attempt whose GET
      failed. */
  lemma PacedStep(s: QuotaState, tries: nat, net: nat -> Retry.Response, probes: nat -> seq<Probe>,
                  a: nat, k: nat, first: FetchRun)
    requires 0 < tries && !Retry.IsOk(net(k)) && CheckSpec(s, probes(a)).end == Admitted
    requires first == FetchSpec(CheckSpec(s, probes(a)).state, tries - 1, net, probes, a + 1, k + 1)
    requires Paced(tries - 1, a + 1, k + 1, first)
    requires Paced(tries - 1, first.attempt, first.next,
                   FetchSpec(first.state, tries - 1, net, probes, first.attempt, first.next))
    ensures Paced(tries, a, k, FetchSpec(s, tries, net, probes, a, k))
  {
  }

  /** The client's run `c` ends as the retry policy's run `f`: same body
      or "too many tries", and the same next GET. */
  predicate Agrees(c: FetchRun, f: Retry.Outcome)
  {
    c.next == f.next && c.result == (if f.result.Ok? then Ok(f.result.value) else Err(TooManyTries))
  }

  /** Every attempt's `check` admits, whatever the fields. */
  ghost predicate AlwaysAdmits(probes: nat -> seq<Probe>)
  {
    forall j: nat, t: QuotaState :: CheckSpec(t, probes(j)).end == Admitted
  }

  /** When every `check` admits, whatever the fields, the client's `fetch`
      is the retry policy `Retry.Fetch`: the quota only delays it. */
  lemma {:induction false} AdmittedFetchIsRetry(s: QuotaState, tries: nat, net: nat -> Retry.Response,
                                                probes: nat -> seq<Probe>, a: nat, k: nat)
    requires AlwaysAdmits(probes)
    ensures Agrees(FetchSpec(s, tries, net, probes, a, k), Retry.Fetch(tries, net, k))
    decreases tries
  {
    if tries > 0 && !Retry.IsOk(net(k)) {
      var c := CheckSpec(s, probes(a));
      assert c.end == Admitted;
      var first := FetchSpec(c.state, tries - 1, net, probes, a + 1, k + 1);
      AdmittedFetchIsRetry(c.state, tries - 1, net, probes, a + 1, k + 1);
      AdmittedFetchIsRetry(first.state, tries - 1, net, probes, first.attempt, first.next);
      AgreesStep(s, tries, net, probes, a, k, first);
    }
  }

  /** The step of `AdmittedFetchIsRetry` after an admitted attempt whose
      GET failed. */
  lemma AgreesStep(s: QuotaState, tries: nat, net: nat -> Retry.Response, probes: nat -> seq<Probe>,
                   a: nat, k: nat, first: FetchRun)
    requires 0 < tries && !Retry.IsOk(net(k)) && CheckSpec(s, probes(a)).end == Admitted
    requires first == FetchSpec(CheckSpec(s, probes(a)).state, tries - 1, net, probes, a + 1, k + 1)
    requires Agrees(first, Retry.Fetch(tries - 1, net, k + 1))
    requires Agrees(FetchSpec(first.state, tries - 1, net, probes, first.attempt, first.next),
                    Retry.Fetch(tries - 1, net, first.next))
    ensures Agrees(FetchSpec(s, tries, net, probes, a, k), Retry.Fetch(tries, net, k))
  {
  }

  /** A ping that raises in the `check` of the nested `fetch` is caught
      and retried: a 503, then a failing ping, then a good ping and a 200
      return the 200's body after two GETs and three checks. */
  lemma NestedPingRaiseRetried()
    ensures var net := (i: nat) => if i == 0 then Retry.Response(503, "") else Retry.Response(200, "page");
      var probes := (j: nat) =>
        if j == 1 then [Probe(0, PingResponse(None, map[]))]
        else [Probe(0, PingResponse(Some(Limits(50, 200)), map[]))];
      FetchSpec(QuotaState(2, Some(100)), 2, net, probes, 0, 0) == FetchRun(Ok("page"), QuotaState(49, Some(200)), 3, 2)
  {
    var net := (i: nat) => if i == 0 then Retry.Response(503, "") else Retry.Response(200, "page");
    var probes := (j: nat) =>
      if j == 1 then [Probe(0, PingResponse(None, map[]))]
      else [Probe(0, PingResponse(Some(Limits(50, 200)), map[]))];
    assert CheckSpec(QuotaState(2, Some(100)), probes(0)) == CheckRun(Admitted, [], QuotaState(1, Some(100)));
    assert CheckSpec(QuotaState(1, Some(100)), probes(1)).end == PingRaised;
    assert CheckSpec(QuotaState(1, Some(100)), probes(2)).state == QuotaState(49, Some(200));
  }

  class TwitterClient {
    var remaining: int
    var reset: Option<int>

    function State(): QuotaState
      reads this
    {
      QuotaState(remaining, reset)
    }

    /** The fields as `__init__` sets them before its first ping
        (twarc.py:51-52). */
    constructor Fresh()
      ensures State() == QuotaState(0, None)
    {
      remaining := 0;
      reset := None;
    }

    /** `TwitterClient()` (twarc.py:51-53): a client whose fields come from
        one ping; None when that ping raised, which makes `__init__` raise. */
    static method Connect(resp: PingResponse) returns (client: Option<TwitterClient>)
      ensures client.None? <==> Quota.Ping(QuotaState(0, None), resp).raised
      ensures client.Some? ==>
        fresh(client.value) && client.value.State() == Quota.Ping(QuotaState(0, None), resp).state
    {
      var c := new TwitterClient.Fresh();
      var raised := c.Ping(resp);
      client := if raised then None else Some(c);
    }

    /** `ping` (twarc.py:111-130): overwrites the fields from the answer of
        the status endpoint. */
    method Ping(resp: PingResponse) returns (raised: bool)
      modifies this
      ensures Quota.Ping(old(State()), resp) == PingOutcome(raised, State())
    {
      match resp.resources {
        case Some(l) =>
          reset := Some(l.reset);
          remaining := l.remaining;
          raised := false;
        case None =>
          if ResetHeader !in resp.headers {
            raised := true;
            return;
          }
          reset := Some(resp.headers[ResetHeader]);
          if RemainingHeader !in resp.headers {
            raised := true;
            return;
          }
          remaining := resp.headers[RemainingHeader];
          raised := false;
      }
    }

    /** `check` (twarc.py:89-109): waits and re-pings while `remaining` is
        at most 1, then takes one unit. */
    method Check(probes: seq<Probe>) returns (end: CheckEnd, waits: seq<int>)
      modifies this
      ensures CheckSpec(old(State()), probes) == CheckRun(end, waits, State())
      ensures end == Admitted ==> remaining >= 1
    {
      waits := [];
      var i := 0;
      while remaining <= 1
        invariant 0 <= i <= |probes|
        invariant var rest := CheckSpec(State(), probes[i..]);
          CheckSpec(old(State()), probes) == CheckRun(rest.end, waits + rest.waits, rest.state)
        decreases |probes| - i
      {
        if i == |probes| {
          return Blocked, waits;
        }
        var w := Wait(reset, probes[i].now);
        assert probes[i..][0] == probes[i] && probes[i..][1..] == probes[i + 1..];
        waits := waits + [w];
        var raised := Ping(probes[i].response);
        i := i + 1;
        if raised {
          return PingRaised, waits;
        }
      }
      remaining := remaining - 1;
      end := Admitted;
    }

    /** `fetch(url, tries)` (twarc.py:55-78) as `FetchSpec` describes it,
        from attempt `a` and GET `k`. */
    method Fetch(tries: nat, net: nat -> Retry.Response, probes: nat -> seq<Probe>, a: nat, k: nat)
      returns (r: Result<string, FetchFailure>, attempt: nat, next: nat)
      modifies this
      ensures FetchSpec(old(State()), tries, net, probes, a, k) == FetchRun(r, State(), attempt, next)
      ensures r.Ok? ==> remaining >= 1
      decreases tries
    {
      if tries == 0 {
        return Err(TooManyTries), a, k;
      }
      var end, _ := Check(probes(a));
      if end != Admitted {
        return Err(CheckFailed(end)), a + 1, k;
      }
      var resp := net(k);
      if Retry.IsOk(resp) {
        return Ok(resp.body), a + 1, k + 1;
      }
      ghost var admitted := State();
      r, attempt, next := Fetch(tries - 1, net, probes, a + 1, k + 1);
      ghost var first := FetchRun(r, State(), attempt, next);
      FetchSpecRetries(old(State()), tries, net, probes, a, k, admitted, first);
      if resp.TransportError? || Retry.BackoffSecs(tries) < 0 || r.Ok? || r == Err(CheckFailed(Blocked)) {
        return;
      }
      // what the nested call raised is caught by the `except`
      r, attempt, next := Fetch(tries - 1, net, probes, attempt, next);
    }

    /** `TwitterClient.hydrate` (twarc.py:80-87): one `check`, then one
        lookup POST whose body is the comma-joined ids; no status test and
        no retry. */
    method Hydrate(ids: seq<string>, probes: seq<Probe>, lookup: string -> seq<Status>)
      returns (r: Result<Lookup, CheckEnd>)
      modifies this
      ensures CheckSpec(old(State()), probes).end == Admitted <==> r.Ok?
      ensures r.Err? ==> r.error == CheckSpec(old(State()), probes).end
      ensures r.Ok? ==> r.value == Lookup(Text.Join(ids), lookup(Text.Join(ids))) && remaining >= 1
      ensures State() == CheckSpec(old(State()), probes).state
    {
      var end, _ := Check(probes);
      if end != Admitted {
        return Err(end);
      }
      var body := Text.Join(ids);
      r := Ok(Lookup(body, lookup(body)));
    }
  }
}
