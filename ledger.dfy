/**
 * The video table `youtube_video_data`: items keyed by `video_url`, each a
 * map from attribute names to values. This module holds the item update
 * semantics of `update_item` with a `SET` expression, and the predicates the
 * program uses to pick items (youtube_ai_assistant.py:531-553, 688, 806,
 * and the filter expressions of its scans).
 */
module Ledger {
  import opened Wrappers
  import opened Values

  type Record = map<string, Value>

  /** The table's items by partition key. */
  type Items = map<string, Record>

  const KeyAttribute: string := "video_url"

  /** `item.get(name)`: the attribute, or `None` when absent. */
  function Attr(r: Record, name: string): Value
  {
    if name in r then r[name] else Null
  }

  /** `item.get(name, default)`. */
  function AttrOr(r: Record, name: string, default: Value): Value
  {
    if name in r then r[name] else default
  }

  /** The value of `event_year` both scans compare with. */
  const EventYear: Value := Str("2024")

  /** `check_video_exists_in_dynamodb`: the item is present and has
      `transcript_sentences`. */
  predicate VideoExists(items: Items, url: string)
  {
    url in items && "transcript_sentences" in items[url]
  }

  /** The summary scan's filter: `event_year = "2024" AND attribute_not_exists(customer_names)`. */
  predicate SummaryScanFilter(r: Record)
  {
    Attr(r, "event_year") == EventYear && "customer_names" !in r
  }

  /** The summary gate: `customer_names` falsy and `transcript` truthy. */
  predicate SummaryGate(r: Record)
  {
    !Truthy(Attr(r, "customer_names")) && Truthy(Attr(r, "transcript"))
  }

  /** The upload gate: `video_url`, `title` and `transcript` all truthy. */
  predicate UploadGate(r: Record)
  {
    Truthy(Attr(r, "video_url")) && Truthy(Attr(r, "title")) && Truthy(Attr(r, "transcript"))
  }

  /** The view-count scan's filter: `event_year = "2024"`. */
  predicate ViewCountFilter(r: Record)
  {
    Attr(r, "event_year") == EventYear
  }

  /** `update_item(Key={'video_url': url}, UpdateExpression="SET ...")`: the
      assigned attributes overwrite or extend the item; an absent item is
      created holding its key. */
  function Upsert(items: Items, url: string, updates: map<string, Value>): Items
  {
    var base := if url in items then items[url] else map[KeyAttribute := Str(url)];
    items[url := base + updates]
  }

  /** After an update the item exists and holds every assigned value. */
  lemma UpsertSets(items: Items, url: string, updates: map<string, Value>)
    ensures url in Upsert(items, url, updates)
    ensures forall a :: a in updates ==> a in Upsert(items, url, updates)[url] && Upsert(items, url, updates)[url][a] == updates[a]
  {
  }

  /** An update changes no other item, and no attribute it does not assign;
      a new item holds only its key and the assigned attributes. */
  lemma UpsertFrame(items: Items, url: string, updates: map<string, Value>)
    ensures forall u :: u != url ==> (u in Upsert(items, url, updates) <==> u in items)
    ensures forall u :: u != url && u in items ==> Upsert(items, url, updates)[u] == items[u]
    ensures url in items ==> forall a :: a !in updates ==>
      (a in Upsert(items, url, updates)[url] <==> a in items[url])
      && (a in items[url] ==> Upsert(items, url, updates)[url][a] == items[url][a])
    ensures url !in items ==> Upsert(items, url, updates)[url].Keys == updates.Keys + {KeyAttribute}
  {
  }

  /** Applying the same update twice is applying it once. */
  lemma UpsertIdempotent(items: Items, url: string, updates: map<string, Value>)
    ensures Upsert(Upsert(items, url, updates), url, updates) == Upsert(items, url, updates)
  {
    var once := Upsert(items, url, updates);
    var r := once[url];
    assert r + updates == r;
  }

  /** Among the items the summary scan returns, the gate reduces to a truthy transcript. */
  lemma SummaryGateAfterScan(r: Record)
    requires SummaryScanFilter(r)
    ensures SummaryGate(r) <==> Truthy(Attr(r, "transcript"))
  {
  }

  /** Once the summary fields include `customer_names`, the item no longer
      passes the summary scan, so it is not summarised again. */
  lemma SummaryNotRepeated(items: Items, url: string, updates: map<string, Value>)
    requires "customer_names" in updates
    ensures !SummaryScanFilter(Upsert(items, url, updates)[url])
  {
  }

  /** An update makes a video count as existing exactly when it already did
      or the update assigns `transcript_sentences`. */
  lemma VideoExistsAfterUpsert(items: Items, url: string, updates: map<string, Value>, u: string)
    ensures VideoExists(Upsert(items, url, updates), u) <==>
      VideoExists(items, u) || (u == url && "transcript_sentences" in updates)
  {
  }

  /** The table as an object whose items the program's calls update in place. */
  class Table {
    var items: Items

    constructor (initial: Items)
      ensures items == initial
    {
      items := initial;
    }

    /** `check_video_exists_in_dynamodb` through `get_item`. */
    method CheckVideoExists(url: string) returns (found: bool)
      ensures found == VideoExists(items, url)
    {
      if url in items {
        var item := items[url];
        found := "transcript_sentences" in item;
      } else {
        found := false;
      }
    }

    /** `update_item` with a `SET` of the given attributes. */
    method UpdateItem(url: string, updates: map<string, Value>)
      modifies this
      ensures items == Upsert(old(items), url, updates)
    {
      var base := if url in items then items[url] else map[KeyAttribute := Str(url)];
      items := items[url := base + updates];
    }

    /** `update_dynamodb`: `SET view_count = :view_count`. */
    method SetViewCount(url: string, viewCount: nat)
      modifies this
      ensures items == Upsert(old(items), url, map["view_count" := Num(viewCount)])
    {
      UpdateItem(url, map["view_count" := Num(viewCount)]);
    }
  }
}
