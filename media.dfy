/**
 * The library's media items, the stored playlist items they are saved as and
 * read back from, their display text, and the row removal the list dialogs use.
 */
module Media {
  import opened Wrappers

  /** MainActivity.MediaItem; the content Uri is kept as its string form. */
  datatype MediaItem = MediaItem(id: int, title: string, artist: Option<string>, album: Option<string>,
                                 dateAdded: int, contentUri: string)

  /** PlaylistItemEntity: title and contentUri are non-null, artist and album may be null. */
  datatype PlaylistItem = PlaylistItem(playlistId: int, contentUri: string, title: string,
                                       artist: Option<string>, album: Option<string>, dateAdded: int)

  const Dash: string := " — "

  predicate HasArtist(m: MediaItem) {
    m.artist.Some? && m.artist.value != ""
  }

  /** displayFor (and MediaItem.toString): the title, followed by the artist when there is a non-empty one. */
  function DisplayFor(m: MediaItem): string {
    if HasArtist(m) then m.title + Dash + m.artist.value else m.title
  }

  /** The display text always begins with the title, and is the bare title exactly when there is no artist to show. */
  lemma DisplayForShape(m: MediaItem)
    ensures m.title <= DisplayFor(m)
    ensures DisplayFor(m) == m.title <==> !HasArtist(m)
    ensures HasArtist(m) ==> DisplayFor(m)[|m.title| + |Dash|..] == m.artist.value
  {
    if HasArtist(m) {
      assert |DisplayFor(m)| > |m.title|;
    }
  }

  /** insertPlaylistItem: the row saved when an item is added to a playlist at time now. */
  function PlaylistItemOf(playlistId: int, m: MediaItem, now: int): PlaylistItem {
    PlaylistItem(playlistId, m.contentUri, m.title, m.artist, m.album, now)
  }

  /** One step of toMediaItems: the stored row as the k-th item of the list it builds. */
  function AsMediaItem(k: int, e: PlaylistItem): MediaItem {
    MediaItem(k, e.title, e.artist, e.album, e.dateAdded, e.contentUri)
  }

  /**
   * toMediaItems: one item per stored row, in order, numbered from 0 by a
   * counter rather than by the row's own id.
   */
  method ToMediaItems(items: seq<PlaylistItem>) returns (list: seq<MediaItem>)
    ensures |list| == |items|
    ensures forall k :: 0 <= k < |items| ==> list[k] == AsMediaItem(k, items[k])
  {
    list := [];
    var idx := 0;
    for i := 0 to |items|
      invariant idx == i == |list|
      invariant forall k :: 0 <= k < i ==> list[k] == AsMediaItem(k, items[k])
    {
      var e := items[i];
      list := list + [MediaItem(idx, e.title, e.artist, e.album, e.dateAdded, e.contentUri)];
      idx := idx + 1;
    }
  }

  /**
   * Saving an item to a playlist and reading it back gives the same track,
   * title, artist, album and uri, renumbered by position and dated by the save.
   */
  lemma SaveThenLoad(playlistId: int, m: MediaItem, now: int, k: int)
    ensures AsMediaItem(k, PlaylistItemOf(playlistId, m, now)) == m.(id := k, dateAdded := now)
    ensures DisplayFor(AsMediaItem(k, PlaylistItemOf(playlistId, m, now))) == DisplayFor(m)
  {
  }

  /** RemoveAdapter's remove button: the row at position goes, the others keep their order. */
  function RemoveAt<T>(xs: seq<T>, position: int): (r: seq<T>)
    requires 0 <= position < |xs|
    ensures |r| == |xs| - 1
    ensures forall k :: 0 <= k < position ==> r[k] == xs[k]
    ensures forall k :: position <= k < |r| ==> r[k] == xs[k + 1]
    ensures multiset(r) + multiset{xs[position]} == multiset(xs)
  {
    assert xs == xs[..position] + [xs[position]] + xs[position + 1..];
    xs[..position] + xs[position + 1..]
  }
}
