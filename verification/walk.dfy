/** The feed walker of walkRpde.js: fetch the current URL, write the page to
    `rpde-<page>.json`, advance, until its stop predicate says otherwise. */
module Walk {
  import opened JsValues
  import opened Rpde
  import Termination
  import FileNames

  /** One `writeFile` call: the file name and the page body serialised into it. */
  datatype Write = Write(fileName: string, body: FeedPage)

  /** The loop variables `nextUrl`, `prevNextUrl` and `page`, together with the
      URLs handed to GET so far and the files written so far, in order. */
  datatype WalkState = WalkState(
    nextUrl: Link,
    prevNextUrl: Link,
    page: nat,
    fetched: seq<string>,
    writes: seq<Write>)

  /** The state before the first iteration: `prevNextUrl` is still undefined. */
  function Start(startUrl: string): WalkState
  {
    WalkState(Url(startUrl), Undefined, 0, [], [])
  }

  /** The file's own copy of the stop predicate: the endUrl and repeat rules,
      without a page cap. */
  predicate LocalContinue(nextUrl: Link, prevNextUrl: Link, endUrl: Link)
  {
    if Truthy(endUrl) && endUrl == nextUrl then false
    else if nextUrl == prevNextUrl then false
    else true
  }

  /** The local copy decides exactly as the shared predicate does when that is
      called without `maxPages` and `page`. */
  lemma LocalPredicateAgrees(nextUrl: Link, prevNextUrl: Link, endUrl: Link)
    ensures LocalContinue(nextUrl, prevNextUrl, endUrl)
        == Termination.DoContinueIterating(
             Termination.IterationArgs(nextUrl, prevNextUrl, endUrl, None, None))
  {
  }

  /** Why a walk aborts: the GET of the current link rejected (a link that is
      not a string, or a URL the feed does not serve), or the fetched page has
      no `items`, so reading their count throws. */
  datatype Failure = FetchFailed(link: Link) | ItemsMissing(url: string)

  datatype StepResult = Halt | Abort(st: WalkState, failure: Failure) | Next(st: WalkState)

  /** The loop body up to the item count: GET `url`, write the page to the
      file of the current index, then `prevNextUrl := nextUrl` and
      `nextUrl := pageJson.next`. */
  function Advance(feed: Feed, s: WalkState, url: string): WalkState
    requires url in feed
  {
    var body := feed[url];
    s.(prevNextUrl := Url(url),
       nextUrl := body.next,
       fetched := s.fetched + [url],
       writes := s.writes + [Write(FileNames.FileName(s.page), body)])
  }

  /** One evaluation of the loop condition and, if it holds, one pass of the
      loop body. A page without `items` aborts the walk after its file has been
      written and the links advanced, but before `page` is incremented. */
  function Step(feed: Feed, endUrl: Link, s: WalkState): (r: StepResult)
    ensures r.Halt? <==> !LocalContinue(s.nextUrl, s.prevNextUrl, endUrl)
    ensures r.Abort? && r.failure.FetchFailed? <==>
              LocalContinue(s.nextUrl, s.prevNextUrl, endUrl) && !(s.nextUrl.Url? && s.nextUrl.url in feed)
  {
    if !LocalContinue(s.nextUrl, s.prevNextUrl, endUrl) then Halt
    else if !s.nextUrl.Url? || s.nextUrl.url !in feed then Abort(s, FetchFailed(s.nextUrl))
    else
      var url := s.nextUrl.url;
      var t := Advance(feed, s, url);
      if feed[url].items.None? then Abort(t, ItemsMissing(url))
      else Next(t.(page := s.page + 1))
  }

  /** The value of `prevNextUrl` when the k-th request is issued: undefined
      before the first request, the URL of the request before it after that. */
  function PrevLink(fetched: seq<string>, k: nat): Link
    requires k <= |fetched|
  {
    if k == 0 then Undefined else Url(fetched[k - 1])
  }

  /** What the k-th request and write of a walk from `startUrl` look like: the
      first request is for `startUrl` and every later one for the `next` of
      the page before it; the stop predicate allowed it; the page it fetched
      is written unchanged to `rpde-k.json`. */
  predicate TraceAt(feed: Feed, startUrl: string, endUrl: Link, fetched: seq<string>, writes: seq<Write>, k: nat)
    requires k < |fetched| == |writes|
  {
    && fetched[k] in feed
    && writes[k] == Write(FileNames.FileName(k), feed[fetched[k]])
    && (k == 0 ==> fetched[k] == startUrl)
    && (k > 0 ==> fetched[k - 1] in feed && feed[fetched[k - 1]].next == Url(fetched[k]))
    && LocalContinue(Url(fetched[k]), PrevLink(fetched, k), endUrl)
  }

  /** The requests and writes of a walk from `startUrl`: one write per
      request, each as `TraceAt` describes. */
  predicate Trace(feed: Feed, startUrl: string, endUrl: Link, fetched: seq<string>, writes: seq<Write>)
  {
    && |writes| == |fetched|
    && forall k :: 0 <= k < |fetched| ==> TraceAt(feed, startUrl, endUrl, fetched, writes, k)
  }

  /** The k-th fetched page has its `items`. */
  predicate HasItems(feed: Feed, fetched: seq<string>, k: nat)
    requires k < |fetched|
  {
    fetched[k] in feed && feed[fetched[k]].items.Some?
  }

  /** The link the walk goes on to after the pages `fetched`: `startUrl`
      before the first request, then the `next` of the last page fetched. */
  function LinkAfter(feed: Feed, startUrl: string, fetched: seq<string>): Link
  {
    if |fetched| == 0 then Url(startUrl)
    else if fetched[|fetched| - 1] in feed then feed[fetched[|fetched| - 1]].next
    else Undefined
  }

  /** A state the loop can be in between iterations: `page` counts the pages
      fetched and written, every fetched page had items, `prevNextUrl` is the
      URL last fetched and `nextUrl` that page's `next`. */
  predicate Running(feed: Feed, startUrl: string, endUrl: Link, s: WalkState)
  {
    && Trace(feed, startUrl, endUrl, s.fetched, s.writes)
    && s.page == |s.fetched|
    && (forall k :: 0 <= k < s.page ==> HasItems(feed, s.fetched, k))
    && s.prevNextUrl == PrevLink(s.fetched, s.page)
    && s.nextUrl == LinkAfter(feed, startUrl, s.fetched)
  }

  lemma StartIsRunning(feed: Feed, startUrl: string, endUrl: Link)
    ensures Running(feed, startUrl, endUrl, Start(startUrl))
  {
  }

  /** The state after the write of a page that has no items: every page
      fetched before it had its items. */
  predicate AbortedAfterWrite(feed: Feed, startUrl: string, endUrl: Link, s: WalkState, url: string)
  {
    && Trace(feed, startUrl, endUrl, s.fetched, s.writes)
    && |s.fetched| == s.page + 1
    && (forall k :: 0 <= k < s.page ==> HasItems(feed, s.fetched, k))
    && s.fetched[s.page] == url
    && url in feed
    && feed[url].items.None?
    && s.prevNextUrl == Url(url)
    && s.nextUrl == feed[url].next
  }

  /** Fetching the current link of a running state, when the predicate
      allows it, extends the trace by that request and its write. */
  lemma {:induction false} AdvanceKeepsTrace(feed: Feed, startUrl: string, endUrl: Link, s: WalkState)
    requires Running(feed, startUrl, endUrl, s)
    requires LocalContinue(s.nextUrl, s.prevNextUrl, endUrl)
    requires s.nextUrl.Url? && s.nextUrl.url in feed
    ensures Trace(feed, startUrl, endUrl, Advance(feed, s, s.nextUrl.url).fetched,
                  Advance(feed, s, s.nextUrl.url).writes)
  {
    var url := s.nextUrl.url;
    var t := Advance(feed, s, url);
    var n := |s.fetched|;
    forall k | 0 <= k < n + 1
      ensures TraceAt(feed, startUrl, endUrl, t.fetched, t.writes, k)
    {
      if k < n {
        assert TraceAt(feed, startUrl, endUrl, s.fetched, s.writes, k);
        assert t.fetched[k] == s.fetched[k] && t.writes[k] == s.writes[k];
        assert k > 0 ==> t.fetched[k - 1] == s.fetched[k - 1];
        assert PrevLink(t.fetched, k) == PrevLink(s.fetched, k);
      } else {
        assert t.fetched[n] == url;
        assert n > 0 ==> t.fetched[n - 1] == s.fetched[n - 1];
        assert PrevLink(t.fetched, n) == s.prevNextUrl;
      }
    }
  }

  /** One step from a running state leads to a running state, aborts without
      writing, or aborts right after writing a page that has no items. */
  lemma {:induction false} StepKeepsRunning(feed: Feed, startUrl: string, endUrl: Link, s: WalkState)
    requires Running(feed, startUrl, endUrl, s)
    ensures Step(feed, endUrl, s).Next? ==> Running(feed, startUrl, endUrl, Step(feed, endUrl, s).st)
    ensures Step(feed, endUrl, s).Next? ==> Step(feed, endUrl, s).st.page == s.page + 1
    ensures Step(feed, endUrl, s).Abort? ==> StepAbortSound(feed, startUrl, endUrl, s, Step(feed, endUrl, s))
  {
    if LocalContinue(s.nextUrl, s.prevNextUrl, endUrl) && s.nextUrl.Url? && s.nextUrl.url in feed {
      var url := s.nextUrl.url;
      AdvanceKeepsTrace(feed, startUrl, endUrl, s);
      var t := Advance(feed, s, url);
      assert t.fetched[|s.fetched|] == url;
      forall k | 0 <= k < s.page
        ensures HasItems(feed, t.fetched, k)
      {
        assert HasItems(feed, s.fetched, k);
        assert t.fetched[k] == s.fetched[k];
      }
      if feed[url].items.Some? {
        var t' := t.(page := s.page + 1);
        assert Step(feed, endUrl, s) == Next(t');
        assert HasItems(feed, t'.fetched, s.page);
        assert Running(feed, startUrl, endUrl, t');
      } else {
        assert Step(feed, endUrl, s) == Abort(t, ItemsMissing(url));
        assert AbortedAfterWrite(feed, startUrl, endUrl, t, url);
      }
    } else if LocalContinue(s.nextUrl, s.prevNextUrl, endUrl) {
      assert Step(feed, endUrl, s) == Abort(s, FetchFailed(s.nextUrl));
    }
  }

  /** An aborting step from a running state either fetched nothing (the
      predicate allowed a request for a link that could not be fetched) or
      fetched one more page, wrote it, and found it has no items. */
  predicate StepAbortSound(feed: Feed, startUrl: string, endUrl: Link, s: WalkState, r: StepResult)
    requires r.Abort?
  {
    match r.failure
    case FetchFailed(l) =>
      && r.st == s && l == s.nextUrl && !(l.Url? && l.url in feed)
      && LocalContinue(s.nextUrl, s.prevNextUrl, endUrl)
    case ItemsMissing(u) =>
      && AbortedAfterWrite(feed, startUrl, endUrl, r.st, u)
      && r.st.page == s.page && r.st.fetched == s.fetched + [u]
  }

  /** The result of a walk: the predicate stopped it, a step aborted it, or
      the fuel ran out first. */
  datatype Outcome = Stopped(st: WalkState) | Aborted(st: WalkState, failure: Failure) | OutOfFuel(st: WalkState)

  /** At most `fuel` evaluations of the loop condition from `s`. */
  function Run(feed: Feed, endUrl: Link, s: WalkState, fuel: nat): Outcome
    decreases fuel
  {
    if fuel == 0 then OutOfFuel(s)
    else
      match Step(feed, endUrl, s)
      case Halt => Stopped(s)
      case Abort(t, f) => Aborted(t, f)
      case Next(t) => Run(feed, endUrl, t, fuel - 1)
  }

  /** What is known of a walk's outcome: a stopped or out-of-fuel walk is in a
      running state (stopped: with the predicate false); a walk aborted by a
      failed GET is in a running state whose predicate allowed a request for a
      link that could not be fetched; a walk aborted by a page without items
      has written that page, the first such page it fetched. */
  predicate Sound(feed: Feed, startUrl: string, endUrl: Link, o: Outcome)
  {
    match o
    case Stopped(t) =>
      Running(feed, startUrl, endUrl, t) && !LocalContinue(t.nextUrl, t.prevNextUrl, endUrl)
    case OutOfFuel(t) =>
      Running(feed, startUrl, endUrl, t)
    case Aborted(t, FetchFailed(l)) =>
      && Running(feed, startUrl, endUrl, t) && LocalContinue(t.nextUrl, t.prevNextUrl, endUrl)
      && l == t.nextUrl && !(l.Url? && l.url in feed)
    case Aborted(t, ItemsMissing(u)) =>
      AbortedAfterWrite(feed, startUrl, endUrl, t, u)
  }

  /** Every walk from a running state ends soundly; with fuel left over only
      when the predicate stopped it or a step aborted it. */
  lemma {:induction false} RunIsSound(feed: Feed, startUrl: string, endUrl: Link, s: WalkState, fuel: nat)
    requires Running(feed, startUrl, endUrl, s)
    ensures Sound(feed, startUrl, endUrl, Run(feed, endUrl, s, fuel))
    ensures Run(feed, endUrl, s, fuel).OutOfFuel? ==> Run(feed, endUrl, s, fuel).st.page == s.page + fuel
    ensures Run(feed, endUrl, s, fuel).st.page <= s.page + fuel
    ensures !Run(feed, endUrl, s, fuel).OutOfFuel? ==> Run(feed, endUrl, s, fuel).st.page < s.page + fuel
    decreases fuel
  {
    if fuel == 0 {
      assert Run(feed, endUrl, s, fuel) == OutOfFuel(s);
    } else {
      var r := Step(feed, endUrl, s);
      if r.Halt? {
        assert Run(feed, endUrl, s, fuel) == Stopped(s);
      } else if r.Abort? {
        StepKeepsRunning(feed, startUrl, endUrl, s);
        assert Run(feed, endUrl, s, fuel) == Aborted(r.st, r.failure);
      } else {
        StepKeepsRunning(feed, startUrl, endUrl, s);
        assert Run(feed, endUrl, s, fuel) == Run(feed, endUrl, r.st, fuel - 1);
        RunIsSound(feed, startUrl, endUrl, r.st, fuel - 1);
      }
    }
  }

  /** The loop of `walkRpde`, from state `s`, for at most `fuel` iterations,
      with the loop variables updated in place. */
  method WalkLoop(feed: Feed, endUrl: Link, s: WalkState, fuel: nat) returns (o: Outcome)
    ensures o == Run(feed, endUrl, s, fuel)
  {
    var prevNextUrl := s.prevNextUrl;
    var nextUrl := s.nextUrl;
    var page := s.page;
    var fetched := s.fetched;
    var writes := s.writes;
    var left := fuel;
    while left > 0
      invariant Run(feed, endUrl, WalkState(nextUrl, prevNextUrl, page, fetched, writes), left)
                == Run(feed, endUrl, s, fuel)
    {
      if !LocalContinue(nextUrl, prevNextUrl, endUrl) {
        return Stopped(WalkState(nextUrl, prevNextUrl, page, fetched, writes));
      }
      if !nextUrl.Url? || nextUrl.url !in feed {
        return Aborted(WalkState(nextUrl, prevNextUrl, page, fetched, writes), FetchFailed(nextUrl));
      }
      var url := nextUrl.url;
      var pageJson := feed[url];
      fetched := fetched + [url];
      writes := writes + [Write(FileNames.FileName(page), pageJson)];
      prevNextUrl := nextUrl;
      nextUrl := pageJson.next;
      if pageJson.items.None? {
        return Aborted(WalkState(nextUrl, prevNextUrl, page, fetched, writes), ItemsMissing(url));
      }
      page := page + 1;
      left := left - 1;
    }
    return OutOfFuel(WalkState(nextUrl, prevNextUrl, page, fetched, writes));
  }

  /** `walkRpde(startUrl, { endUrl })` for at most `fuel` iterations: every
      outcome is sound, and running out of fuel means `fuel` pages were
      fetched and written. */
  method WalkRpde(feed: Feed, startUrl: string, endUrl: Link, fuel: nat) returns (o: Outcome)
    ensures Sound(feed, startUrl, endUrl, o)
    ensures o.OutOfFuel? ==> o.st.page == fuel
    ensures !o.OutOfFuel? ==> o.st.page < fuel
  {
    StartIsRunning(feed, startUrl, endUrl);
    o := WalkLoop(feed, endUrl, Start(startUrl), fuel);
    RunIsSound(feed, startUrl, endUrl, Start(startUrl), fuel);
  }

  /** The k-th write goes to `rpde-k.json`: the written names are consecutive
      page numbers, none written twice. */
  lemma {:induction false} WrittenNamesDistinct(feed: Feed, startUrl: string, endUrl: Link, fetched: seq<string>, writes: seq<Write>)
    requires Trace(feed, startUrl, endUrl, fetched, writes)
    ensures forall k :: 0 <= k < |writes| ==> writes[k].fileName == FileNames.FileName(k)
    ensures forall i, j :: 0 <= i < j < |writes| ==> writes[i].fileName != writes[j].fileName
  {
    forall k | 0 <= k < |writes|
      ensures writes[k].fileName == FileNames.FileName(k)
    {
      assert TraceAt(feed, startUrl, endUrl, fetched, writes, k);
    }
    forall i, j | 0 <= i < j < |writes|
      ensures writes[i].fileName != writes[j].fileName
    {
      if FileNames.FileName(i) == FileNames.FileName(j) {
        FileNames.FileNameInjective(i, j);
      }
    }
  }

  /** When the start URL is already the (non-empty) end URL, the walk stops
      before fetching or writing anything. */
  lemma StartAtEndFetchesNothing(feed: Feed, startUrl: string, fuel: nat)
    requires startUrl != "" && fuel > 0
    ensures Run(feed, Url(startUrl), Start(startUrl), fuel) == Stopped(Start(startUrl))
  {
  }

  /** The feed's "caught up" signal: right after writing a page whose `next`
      is the URL it was fetched from, the walk stops. */
  lemma SelfLinkStops(feed: Feed, endUrl: Link, s: WalkState)
    requires Step(feed, endUrl, s).Next?
    requires s.nextUrl.Url? && s.nextUrl.url in feed && feed[s.nextUrl.url].next == s.nextUrl
    ensures Step(feed, endUrl, Step(feed, endUrl, s).st).Halt?
  {
  }

  /** Feed A -> {next: B, items: [x, y]}, B -> {next: B, items: []}: exactly
      `rpde-0.json` and `rpde-1.json` are written, then the repeat rule stops
      the walk. */
  lemma TwoPageFeed(x: Item, y: Item)
    ensures var pageA := FeedPage(Url("B"), Some([x, y]));
            var pageB := FeedPage(Url("B"), Some([]));
            var feed := map["A" := pageA, "B" := pageB];
            Run(feed, Undefined, Start("A"), 3)
            == Stopped(WalkState(Url("B"), Url("B"), 2, ["A", "B"],
                                 [Write("rpde-0.json", pageA), Write("rpde-1.json", pageB)]))
  {
    FileNames.SmallFileNames();
  }
}
