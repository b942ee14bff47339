/** The two scripts together: the loader reading back the files the walker
    wrote. */
module Harvest {
  import opened JsValues
  import opened Rpde
  import Walk
  import Upload
  import FileNames

  /** The output directory after a walk, as the loader lists it: each written
      file with the `items` of the page written to it. The walker never writes
      a name twice, so no write replaces another. */
  function Directory(writes: seq<Walk.Write>): seq<File>
  {
    seq(|writes|, k requires 0 <= k < |writes| => File(writes[k].fileName, writes[k].body.items))
  }

  /** Item `it` is among the items of the page fetched k-th. */
  predicate PageHasItem(feed: Feed, fetched: seq<string>, k: nat, it: Item)
  {
    k < |fetched| && fetched[k] in feed && feed[fetched[k]].items.Some? && it in feed[fetched[k]].items.value
  }

  /** The number of items on the pages fetched, counting a page without
      `items` as none. */
  function FetchedItemCount(feed: Feed, fetched: seq<string>): nat
  {
    if |fetched| == 0 then 0
    else
      (if fetched[0] in feed && feed[fetched[0]].items.Some? then |feed[fetched[0]].items.value| else 0)
      + FetchedItemCount(feed, fetched[1..])
  }

  /** Files that carry accepted names and the items of the fetched pages, one
      file per page, contribute as many items as the pages hold. */
  lemma {:induction false} FilesCountFetchedItems(feed: Feed, fs: seq<File>, fetched: seq<string>)
    requires |fs| == |fetched|
    requires forall k :: 0 <= k < |fs| ==>
               FileNames.ParseFileName(fs[k].name).Some? && fetched[k] in feed && fs[k].items == feed[fetched[k]].items
    ensures Upload.LoadedItemCount(fs) == FetchedItemCount(feed, fetched)
  {
    if |fs| > 0 {
      assert FileNames.ParseFileName(fs[0].name).Some? && fs[0].items == feed[fetched[0]].items;
      FilesCountFetchedItems(feed, fs[1..], fetched[1..]);
    }
  }

  /** Loading what a walk wrote inserts one row per item of the fetched pages:
      no item is lost and none is loaded twice. */
  lemma {:induction false} LoadedRowCount(
    feed: Feed, startUrl: string, endUrl: Link, fetched: seq<string>, writes: seq<Walk.Write>)
    requires Walk.Trace(feed, startUrl, endUrl, fetched, writes)
    ensures |Upload.Rows(Upload.SortByName(Directory(writes)))| == FetchedItemCount(feed, fetched)
  {
    var dir := Directory(writes);
    forall k | 0 <= k < |dir|
      ensures FileNames.ParseFileName(dir[k].name).Some? && fetched[k] in feed && dir[k].items == feed[fetched[k]].items
    {
      assert Walk.TraceAt(feed, startUrl, endUrl, fetched, writes, k);
      FileNames.FileNameRoundTrip(k);
    }
    FilesCountFetchedItems(feed, dir, fetched);
    Upload.SortCount(dir);
    Upload.RowsCount(Upload.SortByName(dir));
  }

  /** A row loaded from a walk's directory comes from an item of the page
      whose index its file name carries. */
  lemma {:induction false} LoadedRowFromFetchedPage(
    feed: Feed, startUrl: string, endUrl: Link, fetched: seq<string>, writes: seq<Walk.Write>,
    f: File, r: Upload.Row)
    requires Walk.Trace(feed, startUrl, endUrl, fetched, writes)
    requires f in Directory(writes) && Upload.Contributes(f, r)
    ensures PageHasItem(feed, fetched, r.page, Upload.ItemOf(r))
  {
    var dir := Directory(writes);
    var k :| 0 <= k < |dir| && dir[k] == f;
    assert Walk.TraceAt(feed, startUrl, endUrl, fetched, writes, k);
    FileNames.FileNameRoundTrip(k);
  }

  /** Every item of a fetched page is loaded, from the file the walker wrote
      that page to. */
  lemma {:induction false} FetchedItemLoaded(
    feed: Feed, startUrl: string, endUrl: Link, fetched: seq<string>, writes: seq<Walk.Write>, r: Upload.Row)
    requires Walk.Trace(feed, startUrl, endUrl, fetched, writes)
    requires PageHasItem(feed, fetched, r.page, Upload.ItemOf(r))
    ensures Directory(writes)[r.page] in Directory(writes)
    ensures Upload.Contributes(Directory(writes)[r.page], r)
  {
    assert Walk.TraceAt(feed, startUrl, endUrl, fetched, writes, r.page);
    FileNames.FileNameRoundTrip(r.page);
  }

  /** The file-name round trip at work: a row is loaded from what a walk
      wrote exactly when its item is on the fetched page whose index the row
      carries, and there are as many rows as the fetched pages hold items. */
  lemma {:induction false} LoadedRowsMatchFetchedPages(
    feed: Feed, startUrl: string, endUrl: Link, fetched: seq<string>, writes: seq<Walk.Write>, r: Upload.Row)
    requires Walk.Trace(feed, startUrl, endUrl, fetched, writes)
    ensures r in Upload.Rows(Upload.SortByName(Directory(writes)))
            <==> PageHasItem(feed, fetched, r.page, Upload.ItemOf(r))
    ensures |Upload.Rows(Upload.SortByName(Directory(writes)))| == FetchedItemCount(feed, fetched)
  {
    LoadedRowCount(feed, startUrl, endUrl, fetched, writes);
    var dir := Directory(writes);
    Upload.SortedRowsMembership(dir, r);
    if exists f :: f in dir && Upload.Contributes(f, r) {
      var f :| f in dir && Upload.Contributes(f, r);
      LoadedRowFromFetchedPage(feed, startUrl, endUrl, fetched, writes, f, r);
    }
    if PageHasItem(feed, fetched, r.page, Upload.ItemOf(r)) {
      FetchedItemLoaded(feed, startUrl, endUrl, fetched, writes, r);
    }
  }
}
