/** JavaScript values as the harvesting scripts observe them. */
module JsValues {

  /** An optional value, used where a script argument may be `undefined`. */
  datatype Option<+T> = None | Some(value: T)

  /** A variable that holds a URL: before it is assigned (`undefined`), after it is
      assigned a `null` read from a page body, or a string. Keeping `Undefined` and
      `Null` apart makes `===` on links exactly the source's strict equality. */
  datatype Link = Undefined | Null | Url(url: string)

  /** JavaScript truthiness of a link: only a non-empty string is truthy. */
  predicate Truthy(l: Link)
  {
    l.Url? && l.url != ""
  }

  /** `a >= b` on two numbers that may each be `undefined`: a comparison with
      `undefined` compares against NaN and is always false. */
  predicate NumGe(a: Option<int>, b: Option<int>)
  {
    a.Some? && b.Some? && a.value >= b.value
  }
}

/** The feed's data model: items, pages and the files pages are written to. */
module Rpde {
  import opened JsValues

  /** The `data` field of an item: an arbitrary JSON value the scripts never
      look into, represented by its text. */
  type Json = string

  /** One feed item: `{kind, state, id, modified, data}`. */
  datatype Item = Item(kind: string, state: string, id: string, modified: int, data: Json)

  /** A page body as parsed from the wire: its `next` link and its `items`,
      which a malformed page may lack altogether. */
  datatype FeedPage = FeedPage(next: Link, items: Option<seq<Item>>)

  /** The feed as a whole: what a GET of each URL returns. A URL outside the
      map is one whose GET fails. */
  type Feed = map<string, FeedPage>

  /** A file of the output directory as the loader sees it: its name and the
      `items` field of the JSON it holds. */
  datatype File = File(name: string, items: Option<seq<Item>>)
}
