/** The module-level `hydrate` generator (twarc.py:288-308): strips every
    id, collects them in a buffer that is sent as one lookup as soon as it
    holds 100 ids, and sends whatever is left at the end. */
module Hydration {
  import opened Wrappers
  import opened Quota
  import opened Client
  import Text

  const BatchSize: nat := 100

  /** The ids of the batches, in order. */
  function Flatten(batches: seq<seq<string>>): (ids: seq<string>)
  {
    if batches == [] then [] else Flatten(batches[..|batches| - 1]) + batches[|batches| - 1]
  }

  /** The statuses the lookups of `batches` return, batch after batch. */
  function Looked(batches: seq<seq<string>>, lookup: string -> seq<Status>): seq<Status>
  {
    if batches == [] then []
    else Looked(batches[..|batches| - 1], lookup) + lookup(Text.Join(batches[|batches| - 1]))
  }

  /** Every id stripped, in order. */
  function StripAll(ids: seq<string>): (r: seq<string>)
  {
    seq(|ids|, i requires 0 <= i < |ids| => Text.Strip(ids[i]))
  }

  /** `batches` cut `ids` into full batches of 100 followed by at most one
      shorter, non-empty batch, without reordering. */
  ghost predicate Batched(batches: seq<seq<string>>, ids: seq<string>)
  {
    && Flatten(batches) == ids
    && (forall i | 0 <= i < |batches| - 1 :: |batches[i]| == BatchSize)
    && (|batches| > 0 ==> 0 < |batches[|batches| - 1]| <= BatchSize)
  }

  /** Full batches hold 100 ids each. */
  lemma {:induction false} FlattenFull(batches: seq<seq<string>>)
    requires forall i | 0 <= i < |batches| :: |batches[i]| == BatchSize
    ensures |Flatten(batches)| == BatchSize * |batches|
  {
    if batches != [] {
      FlattenFull(batches[..|batches| - 1]);
    }
  }

  lemma FlattenAppend(batches: seq<seq<string>>, b: seq<string>, lookup: string -> seq<Status>)
    ensures Flatten(batches + [b]) == Flatten(batches) + b
    ensures Looked(batches + [b], lookup) == Looked(batches, lookup) + lookup(Text.Join(b))
  {
    assert (batches + [b])[..|batches|] == batches;
  }

  /** Reference cut of `ids` into consecutive batches of 100, front to
      back. */
  function Chunks(ids: seq<string>): seq<seq<string>>
    decreases |ids|
  {
    if ids == [] then []
    else if |ids| <= BatchSize then [ids]
    else [ids[..BatchSize]] + Chunks(ids[BatchSize..])
  }

  lemma {:induction false} FlattenCons(batches: seq<seq<string>>)
    requires batches != []
    ensures Flatten(batches) == batches[0] + Flatten(batches[1..])
    decreases |batches|
  {
    if |batches| > 1 {
      FlattenCons(batches[..|batches| - 1]);
      assert batches[..|batches| - 1][1..] == batches[1..][..|batches| - 2];
    } else {
      assert batches[..0] == [] && batches[1..] == [];
    }
  }

  /** There is only one way to batch: whatever satisfies `Batched` is the
      front-to-back cut into batches of 100. */
  lemma {:induction false} BatchedIsChunks(batches: seq<seq<string>>, ids: seq<string>)
    requires Batched(batches, ids)
    ensures batches == Chunks(ids)
    decreases |batches|
  {
    if batches != [] {
      FlattenCons(batches);
      if |batches| == 1 {
        assert batches[1..] == [];
        assert Flatten(batches[1..]) == [];
        assert ids == batches[0];
        assert batches == [ids];
      } else {
        var tail := batches[1..];
        assert tail[|tail| - 1] == batches[|batches| - 1];
        FlattenCons(tail);
        assert |ids| > BatchSize;
        assert ids[..BatchSize] == batches[0] && ids[BatchSize..] == Flatten(tail);
        BatchedIsChunks(tail, ids[BatchSize..]);
        assert batches == [batches[0]] + tail;
      }
    }
  }

  /** The fields after the `check`s of the first n lookups, each run on
      the fields the previous one left; `probes(j)` drives the j-th. */
  function Checked(s: QuotaState, probes: nat -> seq<Probe>, n: nat): QuotaState
  {
    if n == 0 then s else CheckSpec(Checked(s, probes, n - 1), probes(n - 1)).state
  }

  /** How the `check` of lookup n ends, after the first n. */
  function CheckOf(s: QuotaState, probes: nat -> seq<Probe>, n: nat): CheckRun
  {
    CheckSpec(Checked(s, probes, n), probes(n))
  }

  /** The `check`s of the first n lookups all admitted. */
  ghost predicate Admits(s: QuotaState, probes: nat -> seq<Probe>, n: nat)
  {
    forall j | 0 <= j < n :: CheckOf(s, probes, j).end == Admitted
  }

  /** One more admitted lookup extends the admitted prefix. */
  lemma AdmitsOneMore(s: QuotaState, probes: nat -> seq<Probe>, n: nat)
    requires Admits(s, probes, n) && CheckOf(s, probes, n).end == Admitted
    ensures Admits(s, probes, n + 1) && Checked(s, probes, n + 1) == CheckOf(s, probes, n).state
  {
  }

  /** A prefix of the sent ids. */
  lemma SentPrefix(sent: seq<string>, rest: seq<string>, whole: seq<string>, i: nat)
    requires i <= |whole| && sent + rest == whole[..i]
    ensures |sent| <= |whole| && sent == whole[..|sent|]
  {
    assert sent == (sent + rest)[..|sent|];
  }

  /** What the loop of `hydrate` has built when its input ends: flushing a
      non-empty rest yields a batching of the whole input into
      ceil(n / 100) batches. */
  lemma {:induction false} FlushRest(batches: seq<seq<string>>, rest: seq<string>, ids: seq<string>)
    requires Flatten(batches) + rest == ids
    requires |rest| < BatchSize
    requires forall j | 0 <= j < |batches| :: |batches[j]| == BatchSize
    requires |Flatten(batches)| == BatchSize * |batches|
    ensures var all := if rest == [] then batches else batches + [rest];
      Batched(all, ids) && |all| == (|ids| + BatchSize - 1) / BatchSize
  {
    if rest != [] {
      assert (batches + [rest])[..|batches|] == batches;
    } else {
      assert Flatten(batches) + rest == Flatten(batches);
    }
  }

  /** A full batch that was never sent fits in the input after the sent
      ones, so fewer than ceil(n / 100) batches were sent. */
  lemma StoppedEarly(sent: nat, n: nat)
    requires BatchSize * sent + BatchSize <= n
    ensures sent < (n + BatchSize - 1) / BatchSize
  {
  }

  /** What the loop of `hydrate` holds after reading i of the stripped
      ids: the full batches it sent and the ids in its buffer are those
      ids in order, the statuses are the sent batches' lookups, and every
      sent batch's `check` admitted, leaving the fields `state`. */
  ghost predicate Gathered(ids: seq<string>, i: nat, batches: seq<seq<string>>, rest: seq<string>,
                           statuses: seq<Status>, lookup: string -> seq<Status>,
                           start: QuotaState, probes: nat -> seq<Probe>, state: QuotaState)
  {
    && i <= |ids|
    && Flatten(batches) + rest == ids[..i]
    && |rest| < BatchSize
    && (forall j | 0 <= j < |batches| :: |batches[j]| == BatchSize)
    && statuses == Looked(batches, lookup)
    && Admits(start, probes, |batches|)
    && state == Checked(start, probes, |batches|)
  }

  /** Reading one more id into a buffer that does not fill up. */
  lemma GatherId(ids: seq<string>, i: nat, batches: seq<seq<string>>, rest: seq<string>,
                 statuses: seq<Status>, lookup: string -> seq<Status>,
                 start: QuotaState, probes: nat -> seq<Probe>, state: QuotaState)
    requires Gathered(ids, i, batches, rest, statuses, lookup, start, probes, state)
    requires i < |ids| && |rest| + 1 < BatchSize
    ensures Gathered(ids, i + 1, batches, rest + [ids[i]], statuses, lookup, start, probes, state)
  {
    assert ids[..i + 1] == ids[..i] + [ids[i]];
  }

  /** Reading the id that fills the buffer, whose lookup is not admitted:
      the buffer still holds the next ids of the input. */
  lemma GatherStopped(ids: seq<string>, i: nat, batches: seq<seq<string>>, rest: seq<string>,
                      statuses: seq<Status>, lookup: string -> seq<Status>,
                      start: QuotaState, probes: nat -> seq<Probe>, state: QuotaState)
    requires Gathered(ids, i, batches, rest, statuses, lookup, start, probes, state)
    requires i < |ids|
    ensures var read := Flatten(batches) + (rest + [ids[i]]);
      |read| <= |ids| && read == ids[..|read|]
  {
    assert ids[..i + 1] == ids[..i] + [ids[i]];
    assert Flatten(batches) + (rest + [ids[i]]) == ids[..i] + [ids[i]];
  }

  /** Reading the id that fills the buffer, whose lookup is admitted. */
  lemma GatherBatch(ids: seq<string>, i: nat, batches: seq<seq<string>>, rest: seq<string>,
                    statuses: seq<Status>, lookup: string -> seq<Status>,
                    start: QuotaState, probes: nat -> seq<Probe>, state: QuotaState)
    requires Gathered(ids, i, batches, rest, statuses, lookup, start, probes, state)
    requires i < |ids| && |rest| + 1 == BatchSize
    requires CheckOf(start, probes, |batches|).end == Admitted
    ensures var full := rest + [ids[i]];
      Gathered(ids, i + 1, batches + [full], [], statuses + lookup(Text.Join(full)), lookup,
               start, probes, CheckOf(start, probes, |batches|).state)
  {
    var full := rest + [ids[i]];
    assert ids[..i + 1] == ids[..i] + [ids[i]];
    AdmitsOneMore(start, probes, |batches|);
    FlattenAppend(batches, full, lookup);
  }

  /** `for tweet in client.hydrate(ids): yield tweet` (twarc.py:301-302
      and twarc.py:307-308): the statuses of one lookup, unless its
      `check` did not admit it. */
  method SendBatch(client: TwitterClient, batch: seq<string>, probes: seq<Probe>,
                   lookup: string -> seq<Status>)
    returns (r: Result<seq<Status>, CheckEnd>)
    modifies client
    ensures r.Ok? <==> CheckSpec(old(client.State()), probes).end == Admitted
    ensures r.Ok? ==> r.value == lookup(Text.Join(batch))
    ensures r.Err? ==> r.error == CheckSpec(old(client.State()), probes).end
    ensures client.State() == CheckSpec(old(client.State()), probes).state
  {
    var sent := client.Hydrate(batch, probes, lookup);
    r := if sent.Ok? then Ok(sent.value.statuses) else Err(sent.error);
  }

  /** The `for` loop of `hydrate` (twarc.py:297-303): the full batches it
      sent, what they returned and the ids in the buffer when it ended,
      either with the input or at the first lookup whose `check` did not
      admit it. */
  method Collect(client: TwitterClient, tweetIds: seq<string>, probes: nat -> seq<Probe>,
                 lookup: string -> seq<Status>)
    returns (batches: seq<seq<string>>, rest: seq<string>, statuses: seq<Status>, stop: Option<CheckEnd>)
    modifies client
    ensures statuses == Looked(batches, lookup)
    ensures forall j | 0 <= j < |batches| :: |batches[j]| == BatchSize
    ensures var read := Flatten(batches) + rest;
      |read| <= |tweetIds| && read == StripAll(tweetIds)[..|read|]
    ensures stop.None? ==> |Flatten(batches) + rest| == |tweetIds| && |rest| < BatchSize
    ensures Admits(old(client.State()), probes, |batches|)
    ensures stop.None? ==> client.State() == Checked(old(client.State()), probes, |batches|)
    ensures stop.Some? ==> |rest| == BatchSize
    ensures stop.Some? ==> var c := CheckOf(old(client.State()), probes, |batches|);
      stop.value == c.end && c.end != Admitted && client.State() == c.state
  {
    rest := [];
    batches, statuses := [], [];
    ghost var ids := StripAll(tweetIds);
    ghost var start := client.State();
    for i := 0 to |tweetIds|
      invariant Gathered(ids, i, batches, rest, statuses, lookup, start, probes, client.State())
    {
      var id := Text.Strip(tweetIds[i]);
      if |rest| + 1 < BatchSize {
        GatherId(ids, i, batches, rest, statuses, lookup, start, probes, client.State());
        rest := rest + [id];
      } else {
        ghost var before := client.State();
        var r := SendBatch(client, rest + [id], probes(|batches|), lookup);
        assert CheckOf(start, probes, |batches|) == CheckSpec(before, probes(|batches|));
        if r.Err? {
          GatherStopped(ids, i, batches, rest, statuses, lookup, start, probes, before);
          rest := rest + [id];
          stop := Some(r.error);
          return;
        }
        GatherBatch(ids, i, batches, rest, statuses, lookup, start, probes, before);
        statuses := statuses + r.value;
        batches := batches + [rest + [id]];
        rest := [];
      }
    }
    stop := None;
  }

  /** `hydrate(tweet_ids)` (twarc.py:288-308) with the client it creates
      passed in as `client`; `probes(j)` drives the `check` of the j-th
      lookup. It returns the batches it sent and the statuses they brought
      back, or stops at the first lookup whose `check` did not admit it. */
  method Hydrate(client: TwitterClient, tweetIds: seq<string>, probes: nat -> seq<Probe>,
                 lookup: string -> seq<Status>)
    returns (batches: seq<seq<string>>, statuses: seq<Status>, stop: Option<CheckEnd>)
    modifies client
    ensures statuses == Looked(batches, lookup)
    ensures stop.None? ==> Batched(batches, StripAll(tweetIds))
    ensures stop.None? ==> batches == Chunks(StripAll(tweetIds))
    ensures stop.None? ==> |batches| == (|tweetIds| + BatchSize - 1) / BatchSize
    ensures stop.Some? ==> forall j | 0 <= j < |batches| :: |batches[j]| == BatchSize
    ensures Admits(old(client.State()), probes, |batches|)
    ensures stop.None? ==> client.State() == Checked(old(client.State()), probes, |batches|)
    ensures stop.Some? ==> var c := CheckOf(old(client.State()), probes, |batches|);
      stop.value == c.end && c.end != Admitted && client.State() == c.state
    ensures stop.Some? ==> |batches| < (|tweetIds| + BatchSize - 1) / BatchSize
    ensures Admits(old(client.State()), probes, (|tweetIds| + BatchSize - 1) / BatchSize) ==> stop.None?
    ensures |Flatten(batches)| <= |tweetIds| && Flatten(batches) == StripAll(tweetIds)[..|Flatten(batches)|]
  {
    var rest;
    ghost var start := client.State();
    batches, rest, statuses, stop := Collect(client, tweetIds, probes, lookup);
    SentPrefix(Flatten(batches), rest, StripAll(tweetIds), |Flatten(batches) + rest|);
    if stop.Some? {
      FlattenFull(batches);
      StoppedEarly(|batches|, |tweetIds|);
      return;
    }
    FlattenFull(batches);
    assert StripAll(tweetIds)[..|tweetIds|] == StripAll(tweetIds);
    FlushRest(batches, rest, StripAll(tweetIds));
    if |rest| > 0 {
      var r := SendBatch(client, rest, probes(|batches|), lookup);
      if r.Err? {
        stop := Some(r.error);
        return;
      }
      AdmitsOneMore(start, probes, |batches|);
      FlattenAppend(batches, rest, lookup);
      statuses := statuses + r.value;
      batches := batches + [rest];
    }
    BatchedIsChunks(batches, StripAll(tweetIds));
  }
}
