/**
 * Playlist Enumerator (main.py, get_channel_playlists): the channel's
 * playlists as a dictionary from title to playlist id.
 */
module Playlists {
  import opened Wrappers
  import opened Api

  /** One playlist of the listing: its `id` and its `snippet.title`. */
  datatype PlaylistItem = PlaylistItem(id: string, title: string)

  /** No item after position i has the title of item i. */
  predicate LastWithTitle(items: seq<PlaylistItem>, i: int)
    requires 0 <= i < |items|
  {
    forall j :: i < j < |items| ==> items[j].title != items[i].title
  }

  /**
   * Walks the listing and stores each title's id; a repeated title is
   * overwritten, so the last playlist with that title wins.  A missing or
   * empty `items` list gives an empty dictionary.
   */
  method ChannelPlaylists(response: Option<seq<PlaylistItem>>) returns (playlists: map<string, string>)
    ensures var items := ItemsOrEmpty(response);
      playlists.Keys == set i | 0 <= i < |items| :: items[i].title
    ensures var items := ItemsOrEmpty(response);
      forall i :: 0 <= i < |items| && LastWithTitle(items, i) ==> playlists[items[i].title] == items[i].id
  {
    var items := ItemsOrEmpty(response);
    playlists := map[];
    var n := 0;
    while n < |items|
      invariant 0 <= n <= |items|
      invariant playlists.Keys == set i | 0 <= i < n :: items[i].title
      invariant forall i :: 0 <= i < n && (forall j :: i < j < n ==> items[j].title != items[i].title) ==>
        items[i].title in playlists && playlists[items[i].title] == items[i].id
    {
      playlists := playlists[items[n].title := items[n].id];
      n := n + 1;
    }
  }
}
