/** The stop predicate shared by the feed walkers (utils/doContinueIterating.js). */
module Termination {
  import opened JsValues

  /** The destructured argument object `{ nextUrl, prevNextUrl, endUrl, maxPages, page }`. */
  datatype IterationArgs = IterationArgs(
    nextUrl: Link,
    prevNextUrl: Link,
    endUrl: Link,
    maxPages: Option<int>,
    page: Option<int>)

  /** The three stop rules, named after the message each one logs. */
  datatype StopReason = EndUrlReached | EndOfFeed | MaxPagesReached

  /** The order in which the rules are consulted. */
  function Rank(s: StopReason): nat
  {
    match s
    case EndUrlReached => 0
    case EndOfFeed => 1
    case MaxPagesReached => 2
  }

  /** Whether one rule, taken on its own, applies to the arguments. */
  predicate Fires(s: StopReason, a: IterationArgs)
  {
    match s
    case EndUrlReached => Truthy(a.endUrl) && a.endUrl == a.nextUrl
    case EndOfFeed => a.nextUrl == a.prevNextUrl
    case MaxPagesReached => NumGe(a.page, a.maxPages)
  }

  /** The rule the predicate reports when it stops, or None when it lets the
      walk continue: the first applicable rule in rule order. */
  function StopReasonOf(a: IterationArgs): (r: Option<StopReason>)
    ensures r.None? <==> forall s :: !Fires(s, a)
    ensures r.Some? ==> Fires(r.value, a)
    ensures r.Some? ==> forall s :: Rank(s) < Rank(r.value) ==> !Fires(s, a)
  {
    if Fires(EndUrlReached, a) then Some(EndUrlReached)
    else if Fires(EndOfFeed, a) then Some(EndOfFeed)
    else if Fires(MaxPagesReached, a) then Some(MaxPagesReached)
    else None
  }

  /** `doContinueIterating`: true to fetch another page, false once the end
      has been reached. */
  function DoContinueIterating(a: IterationArgs): (r: bool)
    ensures r <==> forall s :: !Fires(s, a)
    ensures Truthy(a.endUrl) && a.endUrl == a.nextUrl ==> !r
    ensures a.nextUrl == a.prevNextUrl ==> !r
    ensures a.page.Some? && a.maxPages.Some? && a.page.value >= a.maxPages.value ==> !r
    ensures a.page.None? || a.maxPages.None? ==>
              (r <==> !(Truthy(a.endUrl) && a.endUrl == a.nextUrl) && a.nextUrl != a.prevNextUrl)
  {
    StopReasonOf(a).None?
  }

  /** An empty-string `endUrl` is falsy: the predicate behaves as if no
      `endUrl` had been given at all. */
  lemma EmptyEndUrlIsIgnored(a: IterationArgs)
    requires a.endUrl == Url("")
    ensures DoContinueIterating(a) == DoContinueIterating(a.(endUrl := Undefined))
    ensures StopReasonOf(a) != Some(EndUrlReached)
  {
  }

  /** A page cap of zero stops before the first page. */
  lemma ZeroMaxPagesStopsAtOnce(a: IterationArgs)
    requires a.maxPages == Some(0) && a.page == Some(0)
    ensures !DoContinueIterating(a)
  {
  }

  /** A page without a usable `next` is not by itself a stop signal: once a
      URL has been fetched, an absent `nextUrl` lets the walk go on unless the
      page cap applies. */
  lemma MissingNextDoesNotStop(a: IterationArgs)
    requires a.nextUrl == Undefined || a.nextUrl == Null
    requires a.prevNextUrl.Url?
    ensures DoContinueIterating(a) <==> !NumGe(a.page, a.maxPages)
  {
  }
}
