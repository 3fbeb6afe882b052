/**
 * Parsed responses of the video platform's data API, as the dashboard reads them.
 *
 * A response is a JSON object whose `items` list may be missing; the decoders
 * below see it as `Option<seq<Item>>`.  Counter objects (`statistics`) map a
 * counter name such as "viewCount" to its value, already converted with `int(...)`.
 */
module Api {
  import opened Wrappers

  /** The `statistics` object of a channel or a video, keyed by counter name. */
  type Counters = map<string, int>

  const SubscriberCount: string := "subscriberCount"
  const ViewCount: string := "viewCount"
  const VideoCount: string := "videoCount"
  const LikeCount: string := "likeCount"
  const CommentCount: string := "commentCount"

  /** Every counter that is present is non-negative, as the platform reports them. */
  predicate NonNegative(counters: Counters)
  {
    forall key :: key in counters ==> counters[key] >= 0
  }

  /** `int(statistics.get(key, 0))`: the counter when present, 0 when the platform omits it. */
  function CountOrZero(counters: Counters, key: string): (n: int)
    ensures key in counters ==> n == counters[key]
    ensures key !in counters ==> n == 0
    ensures NonNegative(counters) ==> n >= 0
  {
    if key in counters then counters[key] else 0
  }

  /** `response.get("items", [])`: a missing list reads as an empty one. */
  function ItemsOrEmpty<T>(response: Option<seq<T>>): (items: seq<T>)
    ensures response.Some? ==> items == response.value
    ensures response.None? ==> items == []
  {
    match response
    case Some(items) => items
    case None => []
  }
}
