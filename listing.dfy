/**
 * The two video-listing walkers: the channel walk of `get_reinvent_2024_videos`
 * (youtube_ai_assistant.py:114-205) and the playlist walk of
 * `get_youtube_playlist_urls` (youtube_ai_assistant.py:273-343).
 *
 * The HTTP requests and JSON decoding are replaced by abstract pages: the
 * responses are given in request order, already reduced to the nodes the
 * walkers inspect. A response the walker cannot fetch or decode is `Failed`,
 * and requests beyond the given responses fail too.
 */
module Listing {
  import opened Wrappers
  import opened Text

  const WatchPrefix: string := "https://www.youtube.com/watch?v="
  const EventPhrase: string := "AWS re:Invent 2024"

  datatype Entry = Entry(url: string, title: string)

  /** The `url` every listed entry carries. */
  function WatchUrl(videoId: string): (u: string)
    ensures StartsWith(u, WatchPrefix) && u[|WatchPrefix|..] == videoId
  {
    WatchPrefix + videoId
  }

  /** A continuation token is falsy when absent or empty. */
  predicate Truthy(token: Option<string>)
  {
    token.Some? && token.value != ""
  }

  // ---------------------------------------------------------------------------
  // Channel walk
  // ---------------------------------------------------------------------------

  /** One entry of a page's item list, as the channel walk reads it:
      a non-empty `videoRenderer` (its id and first title run), a
      `continuationItemRenderer` (its token), anything else, or an item whose
      expected keys are missing, which raises `KeyError`. */
  datatype Node = VideoNode(videoId: string, title: string) | ContinuationNode(token: string) | OtherNode | BrokenNode

  datatype Page = Fetched(nodes: seq<Node>) | Failed

  /** The state the item loop threads: entries so far, the continuation token,
      and whether an exception has ended the walk. */
  datatype ScanState = ScanState(videos: seq<Entry>, token: Option<string>, broken: bool)

  /** One iteration of the item loop. */
  function ScanStep(st: ScanState, n: Node): ScanState
  {
    match n
    case VideoNode(id, title) =>
      if Contains(title, EventPhrase) then st.(videos := st.videos + [Entry(WatchUrl(id), title)]) else st
    case ContinuationNode(tok) => st.(token := Some(tok))
    case OtherNode => st
    case BrokenNode => st.(broken := true)
  }

  /** The item loop over `nodes`, stopping at the first exception. */
  function ScanNodes(nodes: seq<Node>, st: ScanState): ScanState
  {
    if nodes == [] then st
    else
      var before := ScanNodes(nodes[..|nodes| - 1], st);
      if before.broken then before else ScanStep(before, nodes[|nodes| - 1])
  }

  /** Whether a node raises. */
  predicate NoBroken(nodes: seq<Node>)
  {
    forall i :: 0 <= i < |nodes| ==> !nodes[i].BrokenNode?
  }

  /** The entries a page contributes, read front to back up to the first
      node that raises: the event's videos, as watch URLs with their titles. */
  function Selected(nodes: seq<Node>): seq<Entry>
  {
    if nodes == [] then []
    else match nodes[0]
      case BrokenNode => []
      case VideoNode(id, title) =>
        (if Contains(title, EventPhrase) then [Entry(WatchUrl(id), title)] else []) + Selected(nodes[1..])
      case _ => Selected(nodes[1..])
  }

  /** An entry the walk may list: its title names the event and its URL is a watch URL. */
  predicate GoodEntry(e: Entry)
  {
    Contains(e.title, EventPhrase) && StartsWith(e.url, WatchPrefix)
  }

  /** Appending a node to a page: what the front-to-back reading adds. */
  lemma {:induction false} SelectedSnoc(nodes: seq<Node>, n: Node)
    ensures NoBroken(nodes) ==>
      Selected(nodes + [n]) == Selected(nodes) + Selected([n])
    ensures !NoBroken(nodes) ==> Selected(nodes + [n]) == Selected(nodes)
    decreases |nodes|
  {
    if nodes == [] {
      assert nodes + [n] == [n];
    } else {
      assert (nodes + [n])[0] == nodes[0];
      assert (nodes + [n])[1..] == nodes[1..] + [n];
      SelectedSnoc(nodes[1..], n);
      if !nodes[0].BrokenNode? {
        assert NoBroken(nodes) <==> NoBroken(nodes[1..]) by {
          forall i | 0 <= i < |nodes[1..]| ensures nodes[1..][i] == nodes[i + 1] {}
        }
      }
    }
  }

  /** The item loop appends exactly the page's selected entries, in item order,
      and raises exactly when some node raises. */
  lemma {:induction false} ScanSelects(nodes: seq<Node>, st: ScanState)
    requires !st.broken
    ensures ScanNodes(nodes, st).videos == st.videos + Selected(nodes)
    ensures ScanNodes(nodes, st).broken <==> !NoBroken(nodes)
    decreases |nodes|
  {
    if nodes == [] {
    } else {
      var front := nodes[..|nodes| - 1];
      var last := nodes[|nodes| - 1];
      ScanSelects(front, st);
      assert nodes == front + [last];
      SelectedSnoc(front, last);
      assert NoBroken(nodes) <==> NoBroken(front) && !last.BrokenNode? by {
        forall i | 0 <= i < |front| ensures front[i] == nodes[i] {}
      }
      if NoBroken(front) {
        assert Selected([last]) == (match last
          case VideoNode(id, title) => if Contains(title, EventPhrase) then [Entry(WatchUrl(id), title)] else []
          case _ => []) by {
          assert [last][1..] == [];
        }
      }
    }
  }

  /** Every selected entry names the event and carries a watch URL. */
  lemma {:induction false} SelectedGood(nodes: seq<Node>)
    ensures forall k :: 0 <= k < |Selected(nodes)| ==> GoodEntry(Selected(nodes)[k])
    decreases |nodes|
  {
    if nodes != [] {
      SelectedGood(nodes[1..]);
    }
  }

  /** The last continuation node of a page wins: after a page that raises
      nowhere the token is that of its last continuation node, or the token
      it started with when it has none. */
  lemma {:induction false} ScanLastTokenWins(nodes: seq<Node>, st: ScanState)
    requires !st.broken && NoBroken(nodes)
    ensures (forall i :: 0 <= i < |nodes| ==> !nodes[i].ContinuationNode?) ==>
              ScanNodes(nodes, st).token == st.token
    ensures forall i :: (0 <= i < |nodes| && nodes[i].ContinuationNode?
              && (forall j :: i < j < |nodes| ==> !nodes[j].ContinuationNode?)) ==>
              ScanNodes(nodes, st).token == Some(nodes[i].token)
    decreases |nodes|
  {
    if nodes != [] {
      var front := nodes[..|nodes| - 1];
      var last := nodes[|nodes| - 1];
      assert NoBroken(front) by {
        forall i | 0 <= i < |front| ensures front[i] == nodes[i] {}
      }
      ScanLastTokenWins(front, st);
      ScanSelects(front, st);
      forall i | 0 <= i < |nodes| && nodes[i].ContinuationNode?
          && (forall j :: i < j < |nodes| ==> !nodes[j].ContinuationNode?)
        ensures ScanNodes(nodes, st).token == Some(nodes[i].token)
      {
        if i < |nodes| - 1 {
          assert front[i] == nodes[i];
          forall j | i < j < |front| ensures !front[j].ContinuationNode? {
            assert front[j] == nodes[j];
          }
        }
      }
      if forall i :: 0 <= i < |nodes| ==> !nodes[i].ContinuationNode? {
        forall i | 0 <= i < |front| ensures !front[i].ContinuationNode? {
          assert front[i] == nodes[i];
        }
      }
    }
  }

  /** The pagination loop from page `count` on, with `st` the state after the
      previous page: it runs while the token is truthy and fewer than 35 pages
      have been read. Before a page is scanned the token is reset, so only that
      page's continuation nodes decide whether the walk goes on. The result is
      the entries and the final `page_count`. */
  function Continue(pages: seq<Page>, count: nat, st: ScanState): (r: (seq<Entry>, nat))
    requires !st.broken
    decreases 35 - count
  {
    if !Truthy(st.token) || count >= 35 then (st.videos, count)
    else
      var page := if count < |pages| then pages[count] else Failed;
      match page
      case Failed => (st.videos, count)
      case Fetched(nodes) =>
        var after := ScanNodes(nodes, st.(token := None));
        if after.broken then (after.videos, count) else Continue(pages, count + 1, after)
  }

  /** The whole walk: the first page, then the pagination loop. An exception
      anywhere ends the walk with the entries gathered so far. */
  function Walk(initial: Page, pages: seq<Page>): (seq<Entry>, nat)
  {
    match initial
    case Failed => ([], 0)
    case Fetched(nodes) =>
      var st := ScanNodes(nodes, ScanState([], None, false));
      if st.broken then (st.videos, 0) else Continue(pages, 0, st)
  }

  /** The pagination loop reads at most 35 pages, keeps the entries it started
      with as a prefix, and appends only good entries. */
  lemma {:induction false} ContinueShape(pages: seq<Page>, count: nat, st: ScanState)
    requires !st.broken && count <= 35
    requires forall k :: 0 <= k < |st.videos| ==> GoodEntry(st.videos[k])
    ensures var (vs, c) := Continue(pages, count, st);
      count <= c <= 35
      && |st.videos| <= |vs| && vs[..|st.videos|] == st.videos
      && forall k :: 0 <= k < |vs| ==> GoodEntry(vs[k])
    decreases 35 - count
  {
    if Truthy(st.token) && count < 35 {
      var page := if count < |pages| then pages[count] else Failed;
      if page.Fetched? {
        var s0 := st.(token := None);
        var after := ScanNodes(page.nodes, s0);
        ScanSelects(page.nodes, s0);
        SelectedGood(page.nodes);
        assert after.videos == st.videos + Selected(page.nodes);
        assert forall k :: 0 <= k < |after.videos| ==> GoodEntry(after.videos[k]) by {
          forall k | 0 <= k < |after.videos| ensures GoodEntry(after.videos[k]) {
            if k >= |st.videos| {
              assert after.videos[k] == Selected(page.nodes)[k - |st.videos|];
            }
          }
        }
        if !after.broken {
          ContinueShape(pages, count + 1, after);
          var vs := Continue(pages, count + 1, after).0;
          assert vs[..|st.videos|] == vs[..|after.videos|][..|st.videos|];
        }
      }
    }
  }

  /** The walk reads at most 35 continuation pages and every entry it lists
      names the event and carries a watch URL. */
  lemma WalkShape(initial: Page, pages: seq<Page>)
    ensures Walk(initial, pages).1 <= 35
    ensures forall k :: 0 <= k < |Walk(initial, pages).0| ==> GoodEntry(Walk(initial, pages).0[k])
  {
    if initial.Fetched? {
      var s0 := ScanState([], None, false);
      ScanSelects(initial.nodes, s0);
      SelectedGood(initial.nodes);
      var st := ScanNodes(initial.nodes, s0);
      assert st.videos == Selected(initial.nodes);
      if !st.broken {
        ContinueShape(pages, 0, st);
      }
    }
  }

  /** The first 35 continuation pages, or all of them when there are fewer. */
  function FirstPages(pages: seq<Page>): (r: seq<Page>)
    ensures |r| <= 35 && |r| <= |pages| && r == pages[..|r|]
    ensures |r| == 35 || r == pages
  {
    if |pages| <= 35 then pages else pages[..35]
  }

  /** Pages past the 35th are never read. */
  lemma {:induction false} ContinueReadsFirstPages(pages: seq<Page>, count: nat, st: ScanState)
    requires !st.broken
    ensures Continue(pages, count, st) == Continue(FirstPages(pages), count, st)
    decreases 35 - count
  {
    var first := FirstPages(pages);
    if Truthy(st.token) && count < 35 {
      var page := if count < |pages| then pages[count] else Failed;
      assert page == if count < |first| then first[count] else Failed;
      if page.Fetched? {
        var after := ScanNodes(page.nodes, st.(token := None));
        if !after.broken {
          ContinueReadsFirstPages(pages, count + 1, after);
        }
      }
    }
  }

  /** The walk depends only on the first page and the first 35 continuation pages. */
  lemma WalkReadsFirstPages(initial: Page, pages: seq<Page>)
    ensures Walk(initial, pages) == Walk(initial, FirstPages(pages))
  {
    if initial.Fetched? {
      var st := ScanNodes(initial.nodes, ScanState([], None, false));
      if !st.broken {
        ContinueReadsFirstPages(pages, 0, st);
      }
    }
  }

  /** The token reset: a continuation page that raises nowhere and holds no
      continuation node ends the walk right after it, whatever the token was. */
  lemma ContinueStopsWithoutToken(pages: seq<Page>, count: nat, st: ScanState)
    requires !st.broken && Truthy(st.token) && count < 35 && count < |pages|
    requires pages[count].Fetched? && NoBroken(pages[count].nodes)
    requires forall i :: 0 <= i < |pages[count].nodes| ==> !pages[count].nodes[i].ContinuationNode?
    ensures Continue(pages, count, st) ==
      (st.videos + Selected(pages[count].nodes), count + 1)
  {
    var s0 := st.(token := None);
    ScanSelects(pages[count].nodes, s0);
    ScanLastTokenWins(pages[count].nodes, s0);
  }

  /** The item loop of one page. */
  method ScanPage(nodes: seq<Node>, videos0: seq<Entry>, token0: Option<string>)
    returns (videos: seq<Entry>, token: Option<string>, broken: bool)
    ensures ScanState(videos, token, broken) == ScanNodes(nodes, ScanState(videos0, token0, false))
  {
    videos, token, broken := videos0, token0, false;
    var i := 0;
    while i < |nodes|
      invariant 0 <= i <= |nodes|
      invariant ScanState(videos, token, false) == ScanNodes(nodes[..i], ScanState(videos0, token0, false))
    {
      ghost var next := nodes[..i + 1];
      assert next[..|next| - 1] == nodes[..i];
      match nodes[i] {
        case VideoNode(id, title) =>
          if Contains(title, EventPhrase) {
            videos := videos + [Entry(WatchUrl(id), title)];
          }
        case ContinuationNode(tok) =>
          token := Some(tok);
        case OtherNode =>
        case BrokenNode =>
          broken := true;
          assert ScanState(videos, token, broken) == ScanNodes(next, ScanState(videos0, token0, false));
          NoMoreAfterBroken(nodes, i + 1, ScanState(videos0, token0, false));
          return;
      }
      i := i + 1;
    }
    assert nodes[..i] == nodes;
  }

  /** Once the item loop has raised, later nodes change nothing. */
  lemma {:induction false} NoMoreAfterBroken(nodes: seq<Node>, i: nat, st: ScanState)
    requires i <= |nodes| && ScanNodes(nodes[..i], st).broken
    ensures ScanNodes(nodes, st) == ScanNodes(nodes[..i], st)
    decreases |nodes| - i
  {
    if i < |nodes| {
      ghost var next := nodes[..i + 1];
      assert next[..|next| - 1] == nodes[..i];
      NoMoreAfterBroken(nodes, i + 1, st);
    } else {
      assert nodes[..i] == nodes;
    }
  }

  /** `get_reinvent_2024_videos`: the entries listed and the final `page_count`. */
  method ChannelWalk(initial: Page, pages: seq<Page>) returns (videos: seq<Entry>, pageCount: nat)
    ensures (videos, pageCount) == Walk(initial, pages)
    ensures pageCount <= 35
    ensures forall k :: 0 <= k < |videos| ==> GoodEntry(videos[k])
  {
    WalkShape(initial, pages);
    videos, pageCount := [], 0;
    if initial.Failed? {
      return;
    }
    var token: Option<string>;
    var broken: bool;
    videos, token, broken := ScanPage(initial.nodes, [], None);
    if broken {
      return;
    }
    while Truthy(token) && pageCount < 35
      invariant Continue(pages, pageCount, ScanState(videos, token, false)) == Walk(initial, pages)
      decreases 35 - pageCount
    {
      var page := if pageCount < |pages| then pages[pageCount] else Failed;
      if page.Failed? {
        return;
      }
      token := None;
      videos, token, broken := ScanPage(page.nodes, videos, token);
      if broken {
        return;
      }
      pageCount := pageCount + 1;
    }
  }

  // ---------------------------------------------------------------------------
  // Playlist walk
  // ---------------------------------------------------------------------------

  /** One entry of a playlist page: a `playlistVideoRenderer` with its id, one
      without `videoId` (which raises `KeyError`), an item carrying a
      `continuationItemRenderer` token (possibly absent), or anything else. */
  datatype PlItem = PlVideo(videoId: string) | PlBrokenVideo | PlContinuation(token: Option<string>) | PlOther

  /** A playlist response; `PlFailed` is any exception before the items are in hand. */
  datatype PlResponse = PlFetched(items: seq<PlItem>) | PlFailed

  datatype StopReason = NoItems | NoToken | TooManyFailures

  /** The loop state: URLs so far, the token, the consecutive-failure counter
      `retries`, and the number of requests made. */
  datatype PlState = PlState(urls: seq<string>, token: Option<string>, retries: int, requests: nat)

  /** `items[-1]...get('token')`: only the last item can carry the next token. */
  function LastItemToken(items: seq<PlItem>): Option<string>
    requires items != []
  {
    match items[|items| - 1]
    case PlContinuation(t) => t
    case _ => None
  }

  /** The URLs the item loop appends before it ends or raises, and whether it raised. */
  function PlScan(items: seq<PlItem>): (seq<string>, bool)
  {
    if items == [] then ([], false)
    else match items[0]
      case PlBrokenVideo => ([], true)
      case PlVideo(id) => var (us, b) := PlScan(items[1..]); ([WatchUrl(id)] + us, b)
      case _ => PlScan(items[1..])
  }

  /** The outcome of one iteration: keep going from a new state, or stop. */
  datatype PlOutcome = Go(next: PlState) | Stop(last: PlState, why: StopReason)

  /** `max(1, max_retries)`: the number of consecutive failures that ends the walk. */
  function FailureBudget(maxRetries: int): nat
  {
    if maxRetries < 1 then 1 else maxRetries
  }

  /** One iteration of the `while True` loop on response `resp`. A failure,
      including one raised midway through the items, counts one more retry;
      a page with items and a truthy last token resets the counter. */
  function PlStep(st: PlState, resp: PlResponse, maxRetries: int): PlOutcome
  {
    var req := st.requests + 1;
    match resp
    case PlFailed =>
      var s := st.(retries := st.retries + 1, requests := req);
      if s.retries >= maxRetries then Stop(s, TooManyFailures) else Go(s)
    case PlFetched(items) =>
      var (us, raised) := PlScan(items);
      if raised then
        var s := st.(urls := st.urls + us, retries := st.retries + 1, requests := req);
        if s.retries >= maxRetries then Stop(s, TooManyFailures) else Go(s)
      else
        var s := st.(urls := st.urls + us, requests := req);
        if items == [] then Stop(s, NoItems)
        else
          var tok := LastItemToken(items);
          if !Truthy(tok) then Stop(s.(token := tok), NoToken)
          else Go(s.(token := tok, retries := 0))
  }

  /** The response to request number `k` (counting from 0). */
  function ResponseAt(responses: seq<PlResponse>, k: nat): PlResponse
  {
    if k < |responses| then responses[k] else PlFailed
  }

  /** The measure that the loop decreases: unread responses first, then the
      failures still allowed. */
  function PlMeasureA(responses: seq<PlResponse>, st: PlState): nat
  {
    if st.requests < |responses| then |responses| - st.requests else 0
  }

  /** The walk from state `st`, whose counter is below the failure budget. */
  function PlWalkFrom(responses: seq<PlResponse>, maxRetries: int, st: PlState): (r: (PlState, StopReason))
    requires 0 <= st.retries < FailureBudget(maxRetries)
    decreases PlMeasureA(responses, st), FailureBudget(maxRetries) - st.retries
  {
    match PlStep(st, ResponseAt(responses, st.requests), maxRetries)
    case Stop(s, why) => (s, why)
    case Go(s) => PlWalkFrom(responses, maxRetries, s)
  }

  /** `get_youtube_playlist_urls`, from a fresh state. */
  function PlaylistUrls(responses: seq<PlResponse>, maxRetries: int): (PlState, StopReason)
  {
    PlWalkFrom(responses, maxRetries, PlState([], None, 0, 0))
  }

  /** A successful page with a truthy token resets the counter; any failure
      counts one more. */
  lemma PlStepCounter(st: PlState, resp: PlResponse, maxRetries: int)
    ensures resp.PlFailed? ==> var o := PlStep(st, resp, maxRetries);
      (if o.Go? then o.next else o.last).retries == st.retries + 1
    ensures PlStep(st, resp, maxRetries).Go? && resp.PlFetched? && !PlScan(resp.items).1 ==>
      PlStep(st, resp, maxRetries).next.retries == 0
    ensures PlStep(st, resp, maxRetries).Go? ==> PlStep(st, resp, maxRetries).next.retries < FailureBudget(maxRetries)
  {
  }

  /** Every URL the item loop appends is a watch URL. */
  lemma {:induction false} PlScanUrls(items: seq<PlItem>)
    ensures forall k :: 0 <= k < |PlScan(items).0| ==> StartsWith(PlScan(items).0[k], WatchPrefix)
    decreases |items|
  {
    if items != [] {
      PlScanUrls(items[1..]);
    }
  }

  /** The walk keeps the URLs it started with as a prefix, appends only watch
      URLs, and stops for too many failures exactly with the counter at the
      budget; it makes at most one request per given response plus the budget. */
  lemma {:induction false} PlWalkShape(responses: seq<PlResponse>, maxRetries: int, st: PlState)
    requires 0 <= st.retries < FailureBudget(maxRetries)
    requires st.requests <= |responses| + st.retries
    requires forall k :: 0 <= k < |st.urls| ==> StartsWith(st.urls[k], WatchPrefix)
    ensures var (s, why) := PlWalkFrom(responses, maxRetries, st);
      |st.urls| <= |s.urls| && s.urls[..|st.urls|] == st.urls
      && (forall k :: 0 <= k < |s.urls| ==> StartsWith(s.urls[k], WatchPrefix))
      && (why == TooManyFailures <==> s.retries == FailureBudget(maxRetries))
      && s.requests <= |responses| + FailureBudget(maxRetries)
    decreases PlMeasureA(responses, st), FailureBudget(maxRetries) - st.retries
  {
    var resp := ResponseAt(responses, st.requests);
    if resp.PlFetched? {
      PlScanUrls(resp.items);
    }
    var o := PlStep(st, resp, maxRetries);
    var s := if o.Go? then o.next else o.last;
    assert |st.urls| <= |s.urls| && s.urls[..|st.urls|] == st.urls;
    assert forall k :: 0 <= k < |s.urls| ==> StartsWith(s.urls[k], WatchPrefix) by {
      forall k | 0 <= k < |s.urls| ensures StartsWith(s.urls[k], WatchPrefix) {
        if k >= |st.urls| {
          assert s.urls[k] == PlScan(resp.items).0[k - |st.urls|];
        }
      }
    }
    if o.Go? {
      PlWalkShape(responses, maxRetries, s);
      var r := PlWalkFrom(responses, maxRetries, s).0;
      assert r.urls[..|st.urls|] == r.urls[..|s.urls|][..|st.urls|];
    }
  }

  /** With no responses left, the walk fails `FailureBudget - retries` more
      times and stops for too many failures, adding no URL. */
  lemma {:induction false} PlWalkExhausted(responses: seq<PlResponse>, maxRetries: int, st: PlState)
    requires 0 <= st.retries < FailureBudget(maxRetries) && st.requests >= |responses|
    ensures var (s, why) := PlWalkFrom(responses, maxRetries, st);
      why == TooManyFailures && s.urls == st.urls
      && s.requests == st.requests + FailureBudget(maxRetries) - st.retries
    decreases FailureBudget(maxRetries) - st.retries
  {
    var o := PlStep(st, PlFailed, maxRetries);
    if o.Go? {
      PlWalkExhausted(responses, maxRetries, o.next);
    }
  }

  /** The playlist walk as a loop over requests. */
  method PlaylistWalk(responses: seq<PlResponse>, maxRetries: int)
    returns (urls: seq<string>, why: StopReason)
    ensures urls == PlaylistUrls(responses, maxRetries).0.urls
    ensures why == PlaylistUrls(responses, maxRetries).1
  {
    var st := PlState([], None, 0, 0);
    while true
      invariant 0 <= st.retries < FailureBudget(maxRetries)
      invariant PlWalkFrom(responses, maxRetries, st) == PlaylistUrls(responses, maxRetries)
      decreases PlMeasureA(responses, st), FailureBudget(maxRetries) - st.retries
    {
      var resp := if st.requests < |responses| then responses[st.requests] else PlFailed;
      var o := PlStep(st, resp, maxRetries);
      if o.Stop? {
        urls, why := o.last.urls, o.why;
        return;
      }
      st := o.next;
    }
  }
}
