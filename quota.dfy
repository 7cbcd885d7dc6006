/** The rate-limit bookkeeping of `TwitterClient` (twarc.py:89-130), as
    functions of the tracker's two fields. The clock and the answers of the
    rate-limit status endpoint are inputs: one `Probe` per pass of the
    blocking loop in `check`. Times are whole seconds. */
module Quota {
  import opened Wrappers

  /** The search limits as the status endpoint reports them. */
  datatype Limits = Limits(remaining: int, reset: int)

  const ResetHeader: string := "x-rate-limit-reset"
  const RemainingHeader: string := "x-rate-limit-remaining"

  /** One answer of the status endpoint: the limits under the body's
      `resources.search["/search/tweets"]` (None when the body has no
      `resources` key) and the response headers. */
  datatype PingResponse = PingResponse(resources: Option<Limits>, headers: map<string, int>)

  /** The tracker's fields `remaining` and `reset`; `reset` is None until
      the first ping. */
  datatype QuotaState = QuotaState(remaining: int, reset: Option<int>)

  /** The fields after one ping, and whether the ping raised a KeyError
      on a missing header (which it does after overwriting what it already
      assigned). */
  datatype PingOutcome = PingOutcome(raised: bool, state: QuotaState)

  /** `ping` (twarc.py:111-130) applied to the state `s`. */
  function Ping(s: QuotaState, resp: PingResponse): PingOutcome
  {
    match resp.resources
    case Some(l) => PingOutcome(false, QuotaState(l.remaining, Some(l.reset)))
    case None =>
      if ResetHeader !in resp.headers then PingOutcome(true, s)
      else if RemainingHeader !in resp.headers then
        PingOutcome(true, QuotaState(s.remaining, Some(resp.headers[ResetHeader])))
      else
        PingOutcome(false, QuotaState(resp.headers[RemainingHeader], Some(resp.headers[ResetHeader])))
  }

  /** A ping that does not raise overwrites both fields: what it leaves
      does not depend on the state before it, and it comes from the body
      when the body has `resources`, from the headers only otherwise. */
  lemma PingOverwrites(s: QuotaState, s': QuotaState, resp: PingResponse)
    requires !Ping(s, resp).raised
    ensures !Ping(s', resp).raised && Ping(s', resp).state == Ping(s, resp).state
    ensures Ping(s, resp).state.reset.Some?
    ensures resp.resources.Some? ==>
      Ping(s, resp).state == QuotaState(resp.resources.value.remaining, Some(resp.resources.value.reset))
    ensures resp.resources.None? ==>
      ResetHeader in resp.headers && RemainingHeader in resp.headers &&
      Ping(s, resp).state == QuotaState(resp.headers[RemainingHeader], Some(resp.headers[ResetHeader]))
  {
  }

  /** A ping raises exactly when the body has no `resources` and a header is
      missing; it never changes `remaining` then. */
  lemma PingRaises(s: QuotaState, resp: PingResponse)
    ensures Ping(s, resp).raised <==>
      resp.resources.None? && (ResetHeader !in resp.headers || RemainingHeader !in resp.headers)
    ensures Ping(s, resp).raised ==> Ping(s, resp).state.remaining == s.remaining
  {
  }

  /** Python truthiness of `self.reset`: neither None nor 0. */
  predicate ResetKnown(reset: Option<int>)
  {
    reset.Some? && reset.value != 0
  }

  /** The sleep of one pass of `check`'s loop (twarc.py:99-106) at clock
      reading `now`: until five seconds past a known future reset,
      otherwise one second. */
  function Wait(reset: Option<int>, now: int): (secs: int)
    ensures secs >= 1
    ensures secs > 5 <==> ResetKnown(reset) && now < reset.value
    ensures secs > 5 ==> now + secs == reset.value + 5
    ensures secs <= 5 ==> secs == 1
  {
    if ResetKnown(reset) && now < reset.value then reset.value - now + 5 else 1
  }

  /** One pass of the blocking loop: the clock reading taken at its start
      and the answer of the ping at its end. */
  datatype Probe = Probe(now: int, response: PingResponse)

  /** How `check` ends: it admits the call, it is still blocked when the
      probes run out (the source would go on waiting), or a ping raised. */
  datatype CheckEnd = Admitted | Blocked | PingRaised

  /** What one `check` did: how it ended, the sleep of every pass (one pass,
      one ping), and the fields it left. */
  datatype CheckRun = CheckRun(end: CheckEnd, waits: seq<int>, state: QuotaState)

  /** `check` (twarc.py:89-109) from state `s`, with `probes` as the clock
      readings and ping answers of its successive passes. */
  function CheckSpec(s: QuotaState, probes: seq<Probe>): (r: CheckRun)
    ensures |r.waits| <= |probes|
    ensures r.end == Admitted ==> r.state.remaining >= 1
    ensures r.end == Blocked ==> |r.waits| == |probes| && r.state.remaining <= 1
    ensures r.end == PingRaised ==> |r.waits| >= 1
    ensures |r.waits| == 0 <==> s.remaining > 1 || probes == []
    ensures forall i | 0 <= i < |r.waits| :: r.waits[i] >= 1
    decreases |probes|
  {
    if s.remaining > 1 then CheckRun(Admitted, [], QuotaState(s.remaining - 1, s.reset))
    else if probes == [] then CheckRun(Blocked, [], s)
    else
      var w := Wait(s.reset, probes[0].now);
      var p := Ping(s, probes[0].response);
      if p.raised then CheckRun(PingRaised, [w], p.state)
      else
        var rest := CheckSpec(p.state, probes[1..]);
        CheckRun(rest.end, [w] + rest.waits, rest.state)
  }

  /** The fields after the pings of `probes`, one after the other. */
  function Pings(s: QuotaState, probes: seq<Probe>): QuotaState
    decreases |probes|
  {
    if probes == [] then s else Pings(Ping(s, probes[0].response).state, probes[1..])
  }

  /** When `check` admits a call it has taken exactly one unit from the
      `remaining` it last saw, and that count was above 1: the one from
      before the call when no pass was needed, else the one the last ping
      reported. Every earlier ping reported at most 1. */
  lemma {:induction false} CheckTakesOneUnit(s: QuotaState, probes: seq<Probe>)
    requires CheckSpec(s, probes).end == Admitted
    ensures var r := CheckSpec(s, probes);
      var seen := Pings(s, probes[..|r.waits|]);
      seen.remaining > 1 && r.state == QuotaState(seen.remaining - 1, seen.reset)
    ensures var r := CheckSpec(s, probes);
      forall n | 0 <= n < |r.waits| :: Pings(s, probes[..n]).remaining <= 1
    decreases |probes|
  {
    var r := CheckSpec(s, probes);
    assert probes[..0] == [];
    if s.remaining <= 1 {
      var p := Ping(s, probes[0].response);
      var rest := CheckSpec(p.state, probes[1..]);
      CheckTakesOneUnit(p.state, probes[1..]);
      assert probes[..|r.waits|][1..] == probes[1..][..|rest.waits|];
      forall n | 0 < n < |r.waits| ensures Pings(s, probes[..n]).remaining <= 1 {
        assert probes[..n][1..] == probes[1..][..n - 1];
      }
    }
  }

  /** Every pass sleeps according to the reset time in force at its start:
      the one from before the call for the first pass, the one the previous
      ping reported for each later pass. */
  lemma {:induction false} CheckWaitsFollowReset(s: QuotaState, probes: seq<Probe>)
    ensures var r := CheckSpec(s, probes);
      forall n | 0 <= n < |r.waits| ::
        r.waits[n] == Wait(Pings(s, probes[..n]).reset, probes[n].now)
    decreases |probes|
  {
    var r := CheckSpec(s, probes);
    assert probes[..0] == [];
    if s.remaining <= 1 && probes != [] {
      var p := Ping(s, probes[0].response);
      if !p.raised {
        CheckWaitsFollowReset(p.state, probes[1..]);
        forall n | 0 < n < |r.waits|
          ensures r.waits[n] == Wait(Pings(s, probes[..n]).reset, probes[n].now)
        {
          assert probes[..n][1..] == probes[1..][..n - 1];
        }
      }
    }
  }
}
