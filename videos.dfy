/**
 * Video Batch Fetcher (main.py, get_latest_videos and get_videos_from_playlist):
 * one record per listed video, with the video's statistics merged in.
 *
 * The per-video statistics request is a network call; its answer for every
 * video id is an input map from video id to that video's `statistics` object.
 */
module Videos {
  import opened Wrappers
  import opened Api

  /** `id.videoId` of a search result, `snippet.resourceId.videoId` of a playlist item. */
  datatype VideoRef = VideoRef(videoId: string)

  /** `snippet` of a search result (`publishedAt` as a UTC timestamp in seconds). */
  datatype SearchSnippet = SearchSnippet(title: string, publishedAt: int)

  /** One result of the channel's date-ordered video search. */
  datatype SearchVideo = SearchVideo(id: VideoRef, snippet: SearchSnippet)

  /** `snippet` of a playlist item. */
  datatype ItemSnippet = ItemSnippet(resourceId: VideoRef, title: string, publishedAt: int)

  /** One item of a playlist listing. */
  datatype PlaylistVideo = PlaylistVideo(snippet: ItemSnippet)

  /** One row of the videos table. */
  datatype VideoRecord = VideoRecord(
    title: string,
    videoId: string,
    publishDate: int,
    views: int,
    likes: int,
    comments: int)

  /**
   * The row for one listed video: its id, title and publish date unchanged, and
   * each counter taken from its statistics when present and 0 when absent.
   */
  function MakeRecord(videoId: string, title: string, publishDate: int, stats: Counters): (v: VideoRecord)
    ensures v.videoId == videoId && v.title == title && v.publishDate == publishDate
    ensures (ViewCount in stats ==> v.views == stats[ViewCount]) && (ViewCount !in stats ==> v.views == 0)
    ensures (LikeCount in stats ==> v.likes == stats[LikeCount]) && (LikeCount !in stats ==> v.likes == 0)
    ensures (CommentCount in stats ==> v.comments == stats[CommentCount]) && (CommentCount !in stats ==> v.comments == 0)
    ensures NonNegative(stats) ==> v.views >= 0 && v.likes >= 0 && v.comments >= 0
  {
    VideoRecord(title, videoId, publishDate,
      CountOrZero(stats, ViewCount), CountOrZero(stats, LikeCount), CountOrZero(stats, CommentCount))
  }

  /** Every counter of every video's statistics is non-negative. */
  predicate AllNonNegative(statistics: map<string, Counters>)
  {
    forall id :: id in statistics ==> NonNegative(statistics[id])
  }

  predicate NonNegativeRecord(v: VideoRecord)
  {
    v.views >= 0 && v.likes >= 0 && v.comments >= 0
  }

  /**
   * get_latest_videos: the search results in listing order, one record each.
   * The source reads the first entry of each statistics answer without a
   * guard, so a statistics entry for every listed id is required.
   */
  method LatestVideos(response: Option<seq<SearchVideo>>, statistics: map<string, Counters>)
    returns (videos: seq<VideoRecord>)
    requires forall item :: item in ItemsOrEmpty(response) ==> item.id.videoId in statistics
    ensures var items := ItemsOrEmpty(response);
      && |videos| == |items|
      && forall i :: 0 <= i < |items| ==>
        videos[i] == MakeRecord(items[i].id.videoId, items[i].snippet.title, items[i].snippet.publishedAt,
                                statistics[items[i].id.videoId])
    ensures AllNonNegative(statistics) ==> forall v :: v in videos ==> NonNegativeRecord(v)
  {
    var items := ItemsOrEmpty(response);
    videos := [];
    var n := 0;
    while n < |items|
      invariant 0 <= n <= |items|
      invariant |videos| == n
      invariant forall i :: 0 <= i < n ==>
        videos[i] == MakeRecord(items[i].id.videoId, items[i].snippet.title, items[i].snippet.publishedAt,
                                statistics[items[i].id.videoId])
    {
      var item := items[n];
      assert item in items;
      var stats := statistics[item.id.videoId];
      videos := videos + [MakeRecord(item.id.videoId, item.snippet.title, item.snippet.publishedAt, stats)];
      n := n + 1;
    }
  }

  /**
   * get_videos_from_playlist: the playlist items in playlist order, one record
   * each; the same merge as LatestVideos, reading the id from the snippet.
   */
  method PlaylistVideos(response: Option<seq<PlaylistVideo>>, statistics: map<string, Counters>)
    returns (videos: seq<VideoRecord>)
    requires forall item :: item in ItemsOrEmpty(response) ==> item.snippet.resourceId.videoId in statistics
    ensures var items := ItemsOrEmpty(response);
      && |videos| == |items|
      && forall i :: 0 <= i < |items| ==>
        videos[i] == MakeRecord(items[i].snippet.resourceId.videoId, items[i].snippet.title,
                                items[i].snippet.publishedAt, statistics[items[i].snippet.resourceId.videoId])
    ensures AllNonNegative(statistics) ==> forall v :: v in videos ==> NonNegativeRecord(v)
  {
    var items := ItemsOrEmpty(response);
    videos := [];
    var n := 0;
    while n < |items|
      invariant 0 <= n <= |items|
      invariant |videos| == n
      invariant forall i :: 0 <= i < n ==>
        videos[i] == MakeRecord(items[i].snippet.resourceId.videoId, items[i].snippet.title,
                                items[i].snippet.publishedAt, statistics[items[i].snippet.resourceId.videoId])
    {
      var item := items[n];
      assert item in items;
      var videoId := item.snippet.resourceId.videoId;
      var stats := statistics[videoId];
      videos := videos + [MakeRecord(videoId, item.snippet.title, item.snippet.publishedAt, stats)];
      n := n + 1;
    }
  }
}
