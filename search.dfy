/** The search paginator: `search_result` (twarc.py:172-195), one page
    and its cursor step, and `search` (twarc.py:133-149), the loop over
    pages. The API is an input: `pages[j]` is what the j-th page's
    `client.fetch` returned, or None when that call raised. */
module Search {
  import opened Wrappers
  import opened Client

  /** The value of `max_id`. It arrives from the command line as a string
      (twarc.py:325, twarc.py:353), which Python never finds equal to the
      integer cursor the first page computes, so it is kept apart from the
      cursors `search_result` computes. */
  datatype MaxId = NoMaxId | Given(text: string) | Cursor(id: int)

  /** Python truthiness of `max_id` (twarc.py:180). */
  predicate Truthy(m: MaxId)
  {
    match m
    case NoMaxId => false
    case Given(text) => text != ""
    case Cursor(id) => id != 0
  }

  /** Python truthiness of `since_id` (twarc.py:147, twarc.py:178). */
  predicate SinceGiven(since: Option<string>)
  {
    since.Some? && since.value != ""
  }

  /** The optional parameters of one search request; the query and
      `count=100` are always sent. */
  datatype Request = Request(sinceId: Option<string>, maxId: Option<MaxId>)

  /** The request `search_result` builds (twarc.py:176-181): each bound is
      sent exactly when it is truthy. */
  function PageRequest(since: Option<string>, maxId: MaxId): (r: Request)
    ensures r.sinceId.Some? <==> SinceGiven(since)
    ensures r.maxId.Some? <==> Truthy(maxId)
    ensures r.sinceId.Some? ==> r.sinceId == since
    ensures r.maxId.Some? ==> r.maxId.value == maxId
  {
    Request(if SinceGiven(since) then since else None, if Truthy(maxId) then Some(maxId) else None)
  }

  /** What `search_result` returns: the statuses to yield and the next
      `max_id`. */
  datatype Page = Page(statuses: seq<Status>, maxId: MaxId)

  /** The cursor a non-empty page leads to: one past its last id. */
  function NextCursor(statuses: seq<Status>): MaxId
    requires statuses != []
  {
    Cursor(statuses[|statuses| - 1].id + 1)
  }

  /** `search_result` after its fetch returned `statuses` (twarc.py:184-195). */
  function SearchResult(maxId: MaxId, statuses: seq<Status>): (r: Page)
    ensures r.statuses == [] <==> statuses == [] || NextCursor(statuses) == maxId
    ensures r.statuses == [] ==> r.maxId == maxId
    ensures r.statuses != [] ==> r.statuses == statuses && r.maxId == NextCursor(statuses) && r.maxId != maxId
  {
    if statuses == [] then Page([], maxId)
    else if NextCursor(statuses) == maxId then Page([], maxId)
    else Page(statuses, NextCursor(statuses))
  }

  /** A `max_id` from the command line never looks like a fixed point: the
      first page is yielded whenever it is non-empty. */
  lemma GivenMaxIdNeverFixed(text: string, statuses: seq<Status>)
    requires statuses != []
    ensures SearchResult(Given(text), statuses) == Page(statuses, NextCursor(statuses))
  {
  }

  /** How `search`'s loop ends: at an empty page, on an exception from a
      page's fetch, or when the given pages run out. */
  datatype SearchEnd = Exhausted | Raised | OutOfPages

  datatype SearchRun = SearchRun(statuses: seq<Status>, requests: seq<Request>, maxId: MaxId, end: SearchEnd)

  /** The loop of `search` (twarc.py:140-145) from cursor `maxId`. */
  function SearchSpec(since: Option<string>, maxId: MaxId, pages: seq<Option<seq<Status>>>): (r: SearchRun)
    ensures |r.requests| <= |pages|
    ensures r.end == OutOfPages ==> |r.requests| == |pages|
    ensures r.end != OutOfPages ==> 1 <= |r.requests|
    decreases |pages|
  {
    if pages == [] then SearchRun([], [], maxId, OutOfPages)
    else
      var request := PageRequest(since, maxId);
      match pages[0]
      case None => SearchRun([], [request], maxId, Raised)
      case Some(statuses) =>
        var page := SearchResult(maxId, statuses);
        if page.statuses == [] then SearchRun([], [request], page.maxId, Exhausted)
        else
          var rest := SearchSpec(since, page.maxId, pages[1..]);
          SearchRun(page.statuses + rest.statuses, [request] + rest.requests, rest.maxId, rest.end)
  }

  /** All statuses of the given pages, in order. */
  function Concat(pages: seq<Option<seq<Status>>>): seq<Status>
  {
    if pages == [] then []
    else Concat(pages[..|pages| - 1]) + (match pages[|pages| - 1] case Some(s) => s case None => [])
  }

  /** How many pages a run yielded: all it requested when the pages ran
      out, all but the last otherwise. */
  function Yielded(r: SearchRun): nat
  {
    if r.end == OutOfPages || r.requests == [] then |r.requests| else |r.requests| - 1
  }

  lemma ConcatCons(pages: seq<Option<seq<Status>>>, n: nat)
    requires 0 < n <= |pages| && pages[0].Some?
    ensures Concat(pages[..n]) == pages[0].value + Concat(pages[1..][..n - 1])
    decreases n
  {
    if n == 1 {
      assert pages[..1][..0] == [];
      assert pages[1..][..0] == [];
    } else {
      ConcatCons(pages, n - 1);
      assert pages[..n][..n - 1] == pages[..n - 1];
      assert pages[1..][..n - 1][..n - 2] == pages[1..][..n - 2];
    }
  }

  /** `search` yields every status of every page before the one that
      stopped it, in the order received, and each of those pages was a
      non-empty answer; the page that stopped it was empty or a fixed
      point of the cursor, or its fetch raised. */
  lemma {:induction false} SearchYieldsPagesInOrder(since: Option<string>, maxId: MaxId, pages: seq<Option<seq<Status>>>)
    ensures InOrder(pages, SearchSpec(since, maxId, pages))
    decreases |pages|
  {
    if pages != [] && pages[0].Some? && SearchResult(maxId, pages[0].value).statuses != [] {
      SearchYieldsPagesInOrder(since, SearchResult(maxId, pages[0].value).maxId, pages[1..]);
      InOrderStep(since, maxId, pages);
    } else {
      assert pages[..0] == [];
    }
  }

  /** Run `r` over `pages` yielded the statuses of its first pages in the
      order received, each of those a non-empty answer, and stopped at a
      page whose fetch raised, that was empty or that was a fixed point of
      the cursor. */
  ghost predicate InOrder(pages: seq<Option<seq<Status>>>, r: SearchRun)
  {
    && Yielded(r) <= |pages|
    && r.statuses == Concat(pages[..Yielded(r)])
    && (forall j | 0 <= j < Yielded(r) :: pages[j].Some? && pages[j].value != [])
    && (r.end == Raised ==> Yielded(r) < |pages| && pages[Yielded(r)].None?)
    && (r.end == Exhausted ==>
          Yielded(r) < |pages| && pages[Yielded(r)].Some? &&
          (pages[Yielded(r)].value == [] || NextCursor(pages[Yielded(r)].value) == r.maxId))
  }

  /** The step of `SearchYieldsPagesInOrder` over a first page that is
      yielded. */
  lemma InOrderStep(since: Option<string>, maxId: MaxId, pages: seq<Option<seq<Status>>>)
    requires pages != [] && pages[0].Some? && SearchResult(maxId, pages[0].value).statuses != []
    requires InOrder(pages[1..], SearchSpec(since, SearchResult(maxId, pages[0].value).maxId, pages[1..]))
    ensures InOrder(pages, SearchSpec(since, maxId, pages))
  {
    var r := SearchSpec(since, maxId, pages);
    var page := SearchResult(maxId, pages[0].value);
    var rest := SearchSpec(since, page.maxId, pages[1..]);
    assert r.statuses == page.statuses + rest.statuses && r.requests == [PageRequest(since, maxId)] + rest.requests;
    assert Yielded(r) == Yielded(rest) + 1;
    ConcatCons(pages, Yielded(r));
  }

  /** Each request after the first carries the cursor the previous page
      led to, one past that page's last id; the first carries the
      `max_id` the search started from. */
  lemma {:induction false} SearchCursorAdvances(since: Option<string>, maxId: MaxId, pages: seq<Option<seq<Status>>>)
    ensures var r := SearchSpec(since, maxId, pages);
      && (r.requests != [] ==> r.requests[0] == PageRequest(since, maxId))
      && (forall j | 0 <= j < |r.requests| - 1 ::
            pages[j].Some? && pages[j].value != [] &&
            r.requests[j + 1] == PageRequest(since, NextCursor(pages[j].value)))
    decreases |pages|
  {
    var r := SearchSpec(since, maxId, pages);
    if pages != [] && pages[0].Some? && SearchResult(maxId, pages[0].value).statuses != [] {
      var page := SearchResult(maxId, pages[0].value);
      SearchCursorAdvances(since, page.maxId, pages[1..]);
      var rest := SearchSpec(since, page.maxId, pages[1..]);
      forall j | 0 < j < |r.requests| - 1
        ensures pages[j].Some? && pages[j].value != [] &&
          r.requests[j + 1] == PageRequest(since, NextCursor(pages[j].value))
      {
        assert r.requests[j + 1] == rest.requests[j];
        assert pages[j] == pages[1..][j - 1];
      }
    }
  }

  /** A page whose last id is one below the current cursor ends the search
      at that page, without yielding it: a fixed point costs exactly one
      extra request. */
  lemma FixedPointStops(since: Option<string>, id: int, statuses: seq<Status>, more: seq<Option<seq<Status>>>)
    requires statuses != [] && statuses[|statuses| - 1].id + 1 == id
    ensures SearchSpec(since, Cursor(id), [Some(statuses)] + more) ==
      SearchRun([], [PageRequest(since, Cursor(id))], Cursor(id), Exhausted)
  {
  }

  /** Three pages of 100, 100 and 37 statuses followed by an empty page:
      four requests and 237 statuses, in the order received. */
  lemma ThreePagesThenEmpty()
    ensures var p1 := seq(100, i => Status(1000 - i, ""));
      var p2 := seq(100, i => Status(900 - i, ""));
      var p3 := seq(37, i => Status(800 - i, ""));
      var r := SearchSpec(None, NoMaxId, [Some(p1), Some(p2), Some(p3), Some([])]);
      r.end == Exhausted && |r.requests| == 4 && r.statuses == p1 + p2 + p3 && |r.statuses| == 237
  {
    var p1 := seq(100, i => Status(1000 - i, ""));
    var p2 := seq(100, i => Status(900 - i, ""));
    var p3 := seq(37, i => Status(800 - i, ""));
    var pages := [Some(p1), Some(p2), Some(p3), Some([])];
    assert pages[1..][1..][1..][1..] == [];
    var r4 := SearchSpec(None, Cursor(765), pages[1..][1..][1..]);
    assert r4 == SearchRun([], [PageRequest(None, Cursor(765))], Cursor(765), Exhausted);
    var r3 := SearchSpec(None, Cursor(802), pages[1..][1..]);
    assert p3[36].id == 764;
    assert r3.statuses == p3 + r4.statuses && |r3.requests| == 2;
    var r2 := SearchSpec(None, Cursor(902), pages[1..]);
    assert p2[99].id == 801;
    assert r2.statuses == p2 + r3.statuses && |r2.requests| == 3;
    assert p1[99].id == 901;
    var r := SearchSpec(None, NoMaxId, pages);
    assert r.statuses == p1 + r2.statuses && |r.requests| == 4;
    assert r.statuses == p1 + p2 + p3 + [];
  }

  /** What the loop of `search` has done once it reached page `i` with
      cursor `cursor`: the rest of the run continues from there. */
  ghost predicate SearchSoFar(since: Option<string>, maxId: MaxId, pages: seq<Option<seq<Status>>>,
                              i: nat, cursor: MaxId, statuses: seq<Status>, requests: seq<Request>)
    requires i <= |pages|
  {
    var rest := SearchSpec(since, cursor, pages[i..]);
    SearchSpec(since, maxId, pages) == SearchRun(statuses + rest.statuses, requests + rest.requests, rest.maxId, rest.end)
  }

  /** One turn of the loop at page `i`: the run ends here when the page's
      fetch raised or the page is empty, and goes on otherwise. */
  lemma SearchTurn(since: Option<string>, maxId: MaxId, pages: seq<Option<seq<Status>>>,
                   i: nat, cursor: MaxId, statuses: seq<Status>, requests: seq<Request>)
    requires i < |pages| && SearchSoFar(since, maxId, pages, i, cursor, statuses, requests)
    ensures var requests' := requests + [PageRequest(since, cursor)];
      && (pages[i].None? ==> SearchSpec(since, maxId, pages) == SearchRun(statuses, requests', cursor, Raised))
      && (pages[i].Some? ==>
            var page := SearchResult(cursor, pages[i].value);
            if page.statuses == [] then SearchSpec(since, maxId, pages) == SearchRun(statuses, requests', page.maxId, Exhausted)
            else SearchSoFar(since, maxId, pages, i + 1, page.maxId, statuses + page.statuses, requests'))
  {
    var tail := pages[i..];
    assert tail[0] == pages[i] && tail[1..] == pages[i + 1..];
    var request := PageRequest(since, cursor);
    var rest := SearchSpec(since, cursor, tail);
    if pages[i].None? {
      assert rest == SearchRun([], [request], cursor, Raised);
      assert statuses + rest.statuses == statuses;
    } else {
      var page := SearchResult(cursor, pages[i].value);
      if page.statuses == [] {
        assert rest == SearchRun([], [request], page.maxId, Exhausted);
        assert statuses + rest.statuses == statuses;
      } else {
        var more := SearchSpec(since, page.maxId, pages[i + 1..]);
        assert rest == SearchRun(page.statuses + more.statuses, [request] + more.requests, more.maxId, more.end);
        assert statuses + rest.statuses == (statuses + page.statuses) + more.statuses;
        assert requests + rest.requests == (requests + [request]) + more.requests;
      }
    }
  }

  /** `search(q, since_id, max_id, scrape)` (twarc.py:133-149): the loop
      over pages, then the hand-over to the scraper, which happens only
      after the loop ended at an empty page, with `scrape` set and no
      truthy `since_id`; `scrapeFrom` is the `max_id` it receives. */
  method Search(since: Option<string>, maxId: MaxId, scrape: bool, pages: seq<Option<seq<Status>>>)
    returns (statuses: seq<Status>, requests: seq<Request>, cursor: MaxId, end: SearchEnd, scrapeFrom: Option<MaxId>)
    ensures SearchSpec(since, maxId, pages) == SearchRun(statuses, requests, cursor, end)
    ensures scrapeFrom.Some? <==> end == Exhausted && scrape && !SinceGiven(since)
    ensures scrapeFrom.Some? ==> scrapeFrom.value == cursor
  {
    var i := 0;
    cursor, statuses, requests := maxId, [], [];
    assert pages[0..] == pages;
    while true
      invariant 0 <= i <= |pages|
      invariant SearchSoFar(since, maxId, pages, i, cursor, statuses, requests)
      decreases |pages| - i
    {
      if i == |pages| {
        assert pages[i..] == [];
        end := OutOfPages;
        break;
      }
      SearchTurn(since, maxId, pages, i, cursor, statuses, requests);
      requests := requests + [PageRequest(since, cursor)];
      if pages[i].None? {
        end := Raised;
        break;
      }
      var page := SearchResult(cursor, pages[i].value);
      cursor := page.maxId;
      i := i + 1;
      if page.statuses == [] {
        end := Exhausted;
        break;
      }
      statuses := statuses + page.statuses;
    }
    scrapeFrom := if end == Exhausted && scrape && !SinceGiven(since) then Some(cursor) else None;
  }
}
