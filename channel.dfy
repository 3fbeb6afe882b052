/**
 * Identifier Resolver and Stats Fetcher: decoding the search and channel
 * responses (main.py, get_channel_id_from_name and get_channel_stats).
 * The requests themselves are network calls; their parsed responses are inputs.
 */
module Channel {
  import opened Wrappers
  import opened Api

  /** One result of a channel search; only `snippet.channelId` is read. */
  datatype SearchResult = SearchResult(channelId: string)

  /** One channel record: `snippet.title` and the `statistics` object. */
  datatype ChannelItem = ChannelItem(title: string, statistics: Counters)

  /** The dictionary built by get_channel_stats. */
  datatype ChannelStats = ChannelStats(title: string, subscribers: int, views: int, totalVideos: int)

  /**
   * The channel id of the first search result, or None when the response has
   * no `items` or an empty list.  Further results are ignored: first wins.
   */
  function ChannelIdFromName(response: Option<seq<SearchResult>>): (id: Option<string>)
    ensures id.Some? <==> response.Some? && |response.value| > 0
    ensures id.Some? ==> id.value == response.value[0].channelId
  {
    if response.Some? && |response.value| > 0 then Some(response.value[0].channelId) else None
  }

  /**
   * Channel statistics of the first channel record, or None when there is none.
   * A counter the platform omits (a hidden subscriber count, say) reads as 0.
   */
  function ChannelStatsOf(response: Option<seq<ChannelItem>>): (stats: Option<ChannelStats>)
    ensures stats.None? <==> response.None? || |response.value| == 0
    ensures stats.Some? ==>
      var item := response.value[0];
      && stats.value.title == item.title
      && (SubscriberCount in item.statistics ==> stats.value.subscribers == item.statistics[SubscriberCount])
      && (SubscriberCount !in item.statistics ==> stats.value.subscribers == 0)
      && (ViewCount in item.statistics ==> stats.value.views == item.statistics[ViewCount])
      && (ViewCount !in item.statistics ==> stats.value.views == 0)
      && (VideoCount in item.statistics ==> stats.value.totalVideos == item.statistics[VideoCount])
      && (VideoCount !in item.statistics ==> stats.value.totalVideos == 0)
  {
    if response.None? || |response.value| == 0 then None
    else
      var item := response.value[0];
      Some(ChannelStats(
        item.title,
        CountOrZero(item.statistics, SubscriberCount),
        CountOrZero(item.statistics, ViewCount),
        CountOrZero(item.statistics, VideoCount)))
  }

  /** Defaulting never fabricates a negative (or any non-zero) value: all counters stay non-negative. */
  lemma StatsNonNegative(response: Option<seq<ChannelItem>>)
    requires response.Some? && |response.value| > 0
    requires NonNegative(response.value[0].statistics)
    ensures ChannelStatsOf(response).Some?
    ensures var s := ChannelStatsOf(response).value;
      s.subscribers >= 0 && s.views >= 0 && s.totalVideos >= 0
  {
    var c := response.value[0].statistics;
    assert CountOrZero(c, SubscriberCount) >= 0;
    assert CountOrZero(c, ViewCount) >= 0;
    assert CountOrZero(c, VideoCount) >= 0;
  }
}
