/** The timeline scraper `scrape_tweet_ids` (twarc.py:246-285). The web
    endpoint is an input: `pages[j]` is the JSON answer to the j-th
    request, and `extract` is the tweet-id pattern applied to its
    `items_html` (twarc.py:268). */
module Scrape {
  import opened Wrappers

  /** One answer of the timeline endpoint: its rendered items and its
      `scroll_cursor`, None when that is JSON null. */
  datatype TimelinePage = TimelinePage(itemsHtml: string, scrollCursor: Option<string>)

  /** The `scroll_cursor` parameter one request carries; the other query
      parameters are the same on every request (twarc.py:249-256). */
  datatype TimelineRequest = TimelineRequest(scrollCursor: Option<string>)

  /** Python truthiness of a cursor (twarc.py:261). */
  predicate CursorGiven(cursor: Option<string>)
  {
    cursor.Some? && cursor.value != ""
  }

  /** The parameter after a page answered with `cursor`: the query dict
      keeps its old entry unless the new cursor is truthy (twarc.py:261-262,
      twarc.py:285). */
  function Carry(sent: Option<string>, cursor: Option<string>): Option<string>
  {
    if CursorGiven(cursor) then cursor else sent
  }

  /** The `max_id` the loop logs: the one it started from until an id was
      yielded, the last yielded id afterwards (twarc.py:275-277). */
  datatype LoggedMax = StartedFrom(text: Option<string>) | LastYielded(id: string)

  /** The loop ends when a page holds no tweet id, or when the given pages
      run out. */
  datatype ScrapeEnd = NoMoreIds | OutOfPages

  datatype ScrapeRun = ScrapeRun(ids: seq<string>, requests: seq<TimelineRequest>, maxId: LoggedMax, end: ScrapeEnd)

  /** The loop of `scrape_tweet_ids` from the point where the query dict
      carries `sent` as its cursor. */
  function ScrapeSpec(sent: Option<string>, maxId: LoggedMax, pages: seq<TimelinePage>, extract: string -> seq<string>): (r: ScrapeRun)
    ensures |r.requests| <= |pages|
    ensures r.end == OutOfPages ==> |r.requests| == |pages|
    ensures r.end == NoMoreIds ==> 1 <= |r.requests|
    decreases |pages|
  {
    if pages == [] then ScrapeRun([], [], maxId, OutOfPages)
    else
      var ids := extract(pages[0].itemsHtml);
      if ids == [] then ScrapeRun([], [TimelineRequest(sent)], maxId, NoMoreIds)
      else
        var rest := ScrapeSpec(Carry(sent, pages[0].scrollCursor), LastYielded(ids[|ids| - 1]), pages[1..], extract);
        ScrapeRun(ids + rest.ids, [TimelineRequest(sent)] + rest.requests, rest.maxId, rest.end)
  }

  /** The cursor parameter after `pages` were answered, starting from
      `sent`: the last truthy `scroll_cursor` among them, else `sent`. */
  function LastCursor(sent: Option<string>, pages: seq<TimelinePage>): (c: Option<string>)
    ensures c == sent || exists j | 0 <= j < |pages| :: c == pages[j].scrollCursor && CursorGiven(c)
  {
    if pages == [] then sent
    else if CursorGiven(pages[|pages| - 1].scrollCursor) then pages[|pages| - 1].scrollCursor
    else LastCursor(sent, pages[..|pages| - 1])
  }

  /** All ids `extract` finds in the given pages, in order. */
  function AllIds(pages: seq<TimelinePage>, extract: string -> seq<string>): seq<string>
  {
    if pages == [] then [] else AllIds(pages[..|pages| - 1], extract) + extract(pages[|pages| - 1].itemsHtml)
  }

  /** How many pages a run yielded ids from. */
  function Harvested(r: ScrapeRun): nat
  {
    if r.end == OutOfPages || r.requests == [] then |r.requests| else |r.requests| - 1
  }

  lemma LastCursorCons(sent: Option<string>, pages: seq<TimelinePage>, n: nat)
    requires 0 < n <= |pages|
    ensures LastCursor(sent, pages[..n]) == LastCursor(Carry(sent, pages[0].scrollCursor), pages[1..][..n - 1])
    decreases n
  {
    if n == 1 {
      assert pages[..1][..0] == [] && pages[1..][..0] == [];
    } else {
      LastCursorCons(sent, pages, n - 1);
      assert pages[..n][..n - 1] == pages[..n - 1];
      assert pages[1..][..n - 1][..n - 2] == pages[1..][..n - 2];
    }
  }

  lemma AllIdsCons(pages: seq<TimelinePage>, extract: string -> seq<string>, n: nat)
    requires 0 < n <= |pages|
    ensures AllIds(pages[..n], extract) == extract(pages[0].itemsHtml) + AllIds(pages[1..][..n - 1], extract)
    decreases n
  {
    if n == 1 {
      assert pages[..1][..0] == [] && pages[1..][..0] == [];
    } else {
      AllIdsCons(pages, extract, n - 1);
      assert pages[..n][..n - 1] == pages[..n - 1];
      assert pages[1..][..n - 1][..n - 2] == pages[1..][..n - 2];
    }
  }

  /** Request `j` carries the last truthy `scroll_cursor` of the pages
      before it, or nothing when none was truthy: a page with a null or
      empty cursor does not clear the one already in the query. */
  lemma {:induction false} ScrapeCarriesLastCursor(sent: Option<string>, maxId: LoggedMax, pages: seq<TimelinePage>, extract: string -> seq<string>)
    ensures var r := ScrapeSpec(sent, maxId, pages, extract);
      forall j | 0 <= j < |r.requests| :: r.requests[j] == TimelineRequest(LastCursor(sent, pages[..j]))
    decreases |pages|
  {
    var r := ScrapeSpec(sent, maxId, pages, extract);
    if pages != [] && extract(pages[0].itemsHtml) != [] {
      var ids := extract(pages[0].itemsHtml);
      var next := Carry(sent, pages[0].scrollCursor);
      ScrapeCarriesLastCursor(next, LastYielded(ids[|ids| - 1]), pages[1..], extract);
      var rest := ScrapeSpec(next, LastYielded(ids[|ids| - 1]), pages[1..], extract);
      forall j | 0 <= j < |r.requests|
        ensures r.requests[j] == TimelineRequest(LastCursor(sent, pages[..j]))
      {
        if j == 0 {
          assert pages[..0] == [];
        } else {
          assert r.requests[j] == rest.requests[j - 1];
          LastCursorCons(sent, pages, j);
        }
      }
    } else if pages != [] {
      assert pages[..0] == [];
    }
  }

  /** The scraper yields every id of every page before the first page
      without ids, in page order, and stops there. */
  lemma {:induction false} ScrapeYieldsIdsInOrder(sent: Option<string>, maxId: LoggedMax, pages: seq<TimelinePage>, extract: string -> seq<string>)
    ensures var r := ScrapeSpec(sent, maxId, pages, extract);
      && Harvested(r) <= |pages|
      && r.ids == AllIds(pages[..Harvested(r)], extract)
      && (forall j | 0 <= j < Harvested(r) :: extract(pages[j].itemsHtml) != [])
      && (r.end == NoMoreIds ==> extract(pages[Harvested(r)].itemsHtml) == [])
    decreases |pages|
  {
    var r := ScrapeSpec(sent, maxId, pages, extract);
    if pages == [] || extract(pages[0].itemsHtml) == [] {
      assert pages[..0] == [];
    } else {
      var ids := extract(pages[0].itemsHtml);
      var next := Carry(sent, pages[0].scrollCursor);
      ScrapeYieldsIdsInOrder(next, LastYielded(ids[|ids| - 1]), pages[1..], extract);
      var rest := ScrapeSpec(next, LastYielded(ids[|ids| - 1]), pages[1..], extract);
      assert Harvested(r) == Harvested(rest) + 1;
      AllIdsCons(pages, extract, Harvested(r));
      forall j | 0 < j < Harvested(r)
        ensures extract(pages[j].itemsHtml) != []
      {
        assert pages[j] == pages[1..][j - 1];
      }
    }
  }

  /** The `max_id` the loop logs is the last id it yielded, or the one it
      started from when it yielded none. */
  lemma {:induction false} ScrapeLogsLastId(sent: Option<string>, maxId: LoggedMax, pages: seq<TimelinePage>, extract: string -> seq<string>)
    ensures var r := ScrapeSpec(sent, maxId, pages, extract);
      && (r.ids == [] ==> r.maxId == maxId)
      && (r.ids != [] ==> r.maxId == LastYielded(r.ids[|r.ids| - 1]))
    decreases |pages|
  {
    if pages != [] && extract(pages[0].itemsHtml) != [] {
      var ids := extract(pages[0].itemsHtml);
      var next := Carry(sent, pages[0].scrollCursor);
      ScrapeLogsLastId(next, LastYielded(ids[|ids| - 1]), pages[1..], extract);
      var rest := ScrapeSpec(next, LastYielded(ids[|ids| - 1]), pages[1..], extract);
      var r := ScrapeSpec(sent, maxId, pages, extract);
      if rest.ids != [] {
        assert r.ids[|r.ids| - 1] == rest.ids[|rest.ids| - 1];
      }
    }
  }

  /** A cursor that goes null after a truthy one: the third request still
      carries the first page's cursor. */
  lemma NullCursorKeepsOld(extract: string -> seq<string>)
    requires extract("a") == ["1"] && extract("b") == ["2"] && extract("c") == []
    ensures ScrapeSpec(None, StartedFrom(None),
        [TimelinePage("a", Some("c1")), TimelinePage("b", None), TimelinePage("c", Some("c3"))], extract)
      == ScrapeRun(["1", "2"], [TimelineRequest(None), TimelineRequest(Some("c1")), TimelineRequest(Some("c1"))],
                   LastYielded("2"), NoMoreIds)
  {
    var pages := [TimelinePage("a", Some("c1")), TimelinePage("b", None), TimelinePage("c", Some("c3"))];
    assert pages[1..][1..] == [TimelinePage("c", Some("c3"))];
    assert pages[1..][1..][1..] == [];
  }

  /** What the loop keeps between turns. */
  ghost predicate ScrapeSoFar(start: Option<string>, maxId: LoggedMax, pages: seq<TimelinePage>, extract: string -> seq<string>,
                              i: nat, sent: Option<string>, logged: LoggedMax, ids: seq<string>, requests: seq<TimelineRequest>)
    requires i <= |pages|
  {
    var rest := ScrapeSpec(sent, logged, pages[i..], extract);
    ScrapeSpec(start, maxId, pages, extract) == ScrapeRun(ids + rest.ids, requests + rest.requests, rest.maxId, rest.end)
  }

  /** One turn of the loop at page `i`. */
  lemma ScrapeTurn(start: Option<string>, maxId: LoggedMax, pages: seq<TimelinePage>, extract: string -> seq<string>,
                   i: nat, sent: Option<string>, logged: LoggedMax, ids: seq<string>, requests: seq<TimelineRequest>)
    requires i < |pages| && ScrapeSoFar(start, maxId, pages, extract, i, sent, logged, ids, requests)
    ensures var found := extract(pages[i].itemsHtml);
      var requests' := requests + [TimelineRequest(sent)];
      if found == [] then ScrapeSpec(start, maxId, pages, extract) == ScrapeRun(ids, requests', logged, NoMoreIds)
      else ScrapeSoFar(start, maxId, pages, extract, i + 1, Carry(sent, pages[i].scrollCursor),
                       LastYielded(found[|found| - 1]), ids + found, requests')
  {
    assert pages[i..][0] == pages[i] && pages[i..][1..] == pages[i + 1..];
    var found := extract(pages[i].itemsHtml);
    if found != [] {
      var rest := ScrapeSpec(sent, logged, pages[i..], extract);
      var more := ScrapeSpec(Carry(sent, pages[i].scrollCursor), LastYielded(found[|found| - 1]), pages[i + 1..], extract);
      assert ids + rest.ids == (ids + found) + more.ids;
      assert requests + rest.requests == (requests + [TimelineRequest(sent)]) + more.requests;
    }
  }

  /** The inner loop of `scrape_tweet_ids` (twarc.py:275-277): yield each
      id of a non-empty page, remembering it as the logged `max_id`. */
  method YieldPage(ids: seq<string>, found: seq<string>) returns (ids': seq<string>, logged: LoggedMax)
    requires found != []
    ensures ids' == ids + found
    ensures logged == LastYielded(found[|found| - 1])
  {
    ids' := ids;
    logged := LastYielded(found[0]);
    for k := 0 to |found|
      invariant ids' == ids + found[..k]
      invariant k > 0 ==> logged == LastYielded(found[k - 1])
    {
      logged := LastYielded(found[k]);
      ids' := ids' + [found[k]];
    }
    assert found[..|found|] == found;
  }

  /** `scrape_tweet_ids(query, max_id)` (twarc.py:246-285): request pages,
      carrying the last truthy cursor, yield each page's ids, and stop at
      the first page without any. */
  method ScrapeTweetIds(maxId: Option<string>, pages: seq<TimelinePage>, extract: string -> seq<string>)
    returns (ids: seq<string>, requests: seq<TimelineRequest>, logged: LoggedMax, end: ScrapeEnd)
    ensures ScrapeSpec(None, StartedFrom(maxId), pages, extract) == ScrapeRun(ids, requests, logged, end)
  {
    var sent: Option<string> := None;
    var cursor: Option<string> := None;
    var i := 0;
    ids, requests, logged := [], [], StartedFrom(maxId);
    assert pages[0..] == pages;
    while true
      invariant 0 <= i <= |pages|
      invariant i == 0 ==> cursor == None
      invariant i > 0 ==> cursor == pages[i - 1].scrollCursor
      invariant ScrapeSoFar(None, StartedFrom(maxId), pages, extract, i, Carry(sent, cursor), logged, ids, requests)
      decreases |pages| - i
    {
      if i == |pages| {
        assert pages[i..] == [];
        end := OutOfPages;
        break;
      }
      if CursorGiven(cursor) {
        sent := cursor;
      }
      var found := extract(pages[i].itemsHtml);
      ScrapeTurn(None, StartedFrom(maxId), pages, extract, i, sent, logged, ids, requests);
      requests := requests + [TimelineRequest(sent)];
      if found == [] {
        end := NoMoreIds;
        break;
      }
      ids, logged := YieldPage(ids, found);
      cursor := pages[i].scrollCursor;
      i := i + 1;
    }
  }
}
