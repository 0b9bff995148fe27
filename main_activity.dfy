/**
 * MainActivity's fields and the handlers that update them in place. Each
 * handler is specified by the Transport function of the same behaviour, so
 * that the lemmas proved there hold of the activity.
 */
module MainScreen {
  import opened Wrappers
  import opened JavaText
  import opened Media
  import opened LibraryFilter
  import T = Transport

  class MainActivity {
    var playQueue: seq<MediaItem>
    var queueIndex: int
    var playingFromQueue: bool
    var mediaPlayer: T.Player
    var seekBarProgress: int
    var streamVolume: int          // AudioManager's music stream volume
    const maxVolume: int
    var isMuted: bool
    var previousVolume: int
    var speedIndex: int
    var library: seq<MediaItem>
    var filteredLibrary: seq<MediaItem>

    ghost function State(): T.Transport
      reads this
    {
      T.Transport(playQueue, queueIndex, playingFromQueue, mediaPlayer, seekBarProgress,
                  streamVolume, maxVolume, isMuted, previousVolume, speedIndex)
    }

    ghost predicate Valid()
      reads this
    {
      T.Valid(State())
    }

    /**
     * onCreate for a logged-in user: the stream's current and maximum volume,
     * and the bundled sample track, prepared but not started, if it loaded.
     */
    constructor (volume: int, maxVolume: int, bundled: T.Player)
      requires 0 <= volume <= maxVolume
      requires bundled.Loaded? ==> 0 <= bundled.duration && bundled.position == 0 && bundled.rateIndex == 0 && !bundled.playing
      ensures Valid() && State() == T.Initial(volume, maxVolume, bundled)
      ensures library == [] && filteredLibrary == []
    {
      playQueue := [];
      queueIndex := -1;
      playingFromQueue := false;
      mediaPlayer := bundled;
      seekBarProgress := 0;
      streamVolume := volume;
      this.maxVolume := maxVolume;
      isMuted := false;
      previousVolume := 0;
      speedIndex := 0;
      library := [];
      filteredLibrary := [];
    }

    function CanSkipNext(): (r: bool)
      reads this
      ensures r == T.CanSkipNext(State())
    {
      playingFromQueue && queueIndex >= 0 && queueIndex + 1 < |playQueue|
    }

    function CanSkipPrev(): (r: bool)
      reads this
      ensures r == T.CanSkipPrev(State())
    {
      playingFromQueue && queueIndex > 0 && queueIndex < |playQueue|
    }

    /** prepareMediaPlayer(uri): the old player is released, then the new one is the created one, or none. */
    method PrepareMediaPlayer(open: T.Opener, uri: string)
      modifies this
      ensures mediaPlayer == (if open(uri).Some? then T.Loaded(uri, 0, open(uri).value, false, 0) else T.NoPlayer)
      ensures State() == old(State()).(player := mediaPlayer)
      ensures library == old(library) && filteredLibrary == old(filteredLibrary)
    {
      mediaPlayer := T.NoPlayer;
      var created := open(uri);
      if created.None? {
        return;
      }
      mediaPlayer := T.Loaded(uri, 0, created.value, false, 0);
    }

    /** prepareMediaPlayer(uri), then start() when a player came back. */
    method PlayUri(open: T.Opener, uri: string)
      modifies this
      ensures State() == old(State()).(player := T.PlayUri(open, uri))
      ensures library == old(library) && filteredLibrary == old(filteredLibrary)
    {
      PrepareMediaPlayer(open, uri);
      if mediaPlayer.Loaded? {
        mediaPlayer := mediaPlayer.(playing := true);
      }
    }

    method StartQueuePlayback(open: T.Opener, list: seq<MediaItem>)
      requires Valid()
      modifies this
      ensures Valid()
      ensures State() == T.StartQueue(old(State()), open, list)
      ensures library == old(library) && filteredLibrary == old(filteredLibrary)
    {
      if list == [] {
        return;
      }
      playQueue := list;
      queueIndex := 0;
      playingFromQueue := true;
      var first := playQueue[0];
      PlayUri(open, first.contentUri);
    }

    /** The completion listener attached to the loaded player. */
    method OnCompletion(open: T.Opener)
      requires Valid() && mediaPlayer.Loaded?
      modifies this
      ensures Valid()
      ensures State() == T.Completion(old(State()), open)
      ensures library == old(library) && filteredLibrary == old(filteredLibrary)
    {
      if playingFromQueue && queueIndex >= 0 && queueIndex + 1 < |playQueue| {
        queueIndex := queueIndex + 1;
        var next := playQueue[queueIndex];
        PlayUri(open, next.contentUri);
        return;
      }
      mediaPlayer := mediaPlayer.(playing := false);
      seekBarProgress := 0;
      playingFromQueue := false;
      queueIndex := -1;
    }

    method SkipToNextInQueue(open: T.Opener)
      requires Valid()
      modifies this
      ensures Valid()
      ensures State() == T.SkipNext(old(State()), open)
      ensures library == old(library) && filteredLibrary == old(filteredLibrary)
    {
      if !CanSkipNext() {
        return;
      }
      queueIndex := queueIndex + 1;
      var next := playQueue[queueIndex];
      PlayUri(open, next.contentUri);
    }

    method SkipToPreviousInQueue(open: T.Opener)
      requires Valid()
      modifies this
      ensures Valid()
      ensures State() == T.SkipPrev(old(State()), open)
      ensures library == old(library) && filteredLibrary == old(filteredLibrary)
    {
      if !CanSkipPrev() {
        return;
      }
      queueIndex := queueIndex - 1;
      var prev := playQueue[queueIndex];
      PlayUri(open, prev.contentUri);
    }

    /** The forward button. */
    method OnSkipForward(open: T.Opener)
      requires Valid()
      modifies this
      ensures Valid()
      ensures State() == T.SkipForward(old(State()), open)
      ensures library == old(library) && filteredLibrary == old(filteredLibrary)
    {
      if playingFromQueue && CanSkipNext() {
        SkipToNextInQueue(open);
      } else {
        if mediaPlayer.NoPlayer? {
          return;
        }
        var pos := mediaPlayer.position;
        var target := T.Min(pos + T.SkipMs, mediaPlayer.duration);
        mediaPlayer := mediaPlayer.(position := target);
        seekBarProgress := target;
      }
    }

    /** The back button. */
    method OnSkipBackward(open: T.Opener)
      requires Valid()
      modifies this
      ensures Valid()
      ensures State() == T.SkipBack(old(State()), open)
      ensures library == old(library) && filteredLibrary == old(filteredLibrary)
    {
      if playingFromQueue && CanSkipPrev() {
        SkipToPreviousInQueue(open);
      } else {
        if mediaPlayer.NoPlayer? {
          return;
        }
        var pos := mediaPlayer.position;
        var target := T.Max(pos - T.SkipMs, 0);
        mediaPlayer := mediaPlayer.(position := target);
        seekBarProgress := target;
      }
    }

    /** The position seek bar moved by the user; its range is 0 to the track's duration. */
    method OnSeekBarChanged(progress: int)
      requires Valid()
      requires mediaPlayer.Loaded? ==> 0 <= progress <= mediaPlayer.duration
      modifies this
      ensures Valid()
      ensures State() == T.UserSeek(old(State()), progress)
      ensures library == old(library) && filteredLibrary == old(filteredLibrary)
    {
      if mediaPlayer.Loaded? {
        mediaPlayer := mediaPlayer.(position := progress);
        seekBarProgress := progress;
      }
    }

    method OnPlayPause()
      requires Valid()
      modifies this
      ensures Valid()
      ensures State() == T.PlayPause(old(State()))
      ensures library == old(library) && filteredLibrary == old(filteredLibrary)
    {
      if mediaPlayer.NoPlayer? {
        return;
      }
      if mediaPlayer.playing {
        mediaPlayer := mediaPlayer.(playing := false);
      } else {
        mediaPlayer := mediaPlayer.(playing := true);
      }
    }

    /** The mute button. */
    method OnMute()
      requires Valid()
      modifies this
      ensures Valid()
      ensures State() == T.ToggleMute(old(State()))
      ensures library == old(library) && filteredLibrary == old(filteredLibrary)
    {
      if !isMuted {
        previousVolume := streamVolume;
        streamVolume := 0;
        isMuted := true;
      } else {
        streamVolume := previousVolume;
        isMuted := false;
      }
    }

    /** The volume seek bar moved; its range is 0 to the stream's maximum. */
    method OnVolumeChanged(progress: int)
      requires Valid() && 0 <= progress <= maxVolume
      modifies this
      ensures Valid()
      ensures State() == T.VolumeBar(old(State()), progress)
      ensures library == old(library) && filteredLibrary == old(filteredLibrary)
    {
      streamVolume := progress;
      if progress > 0 {
        isMuted := false;
      }
    }

    /** The speed button; supported says whether setPlaybackParams accepted the rate. */
    method OnSpeed(supported: bool)
      requires Valid()
      modifies this
      ensures Valid()
      ensures State() == T.CycleSpeed(old(State()), supported)
      ensures library == old(library) && filteredLibrary == old(filteredLibrary)
    {
      if mediaPlayer.NoPlayer? {
        return;
      }
      speedIndex := (speedIndex + 1) % T.SpeedCount;
      if supported {
        mediaPlayer := mediaPlayer.(rateIndex := speedIndex);
      }
    }

    /** A library row, or a playlist row, tapped: the item plays alone. */
    method PlayItem(open: T.Opener, m: MediaItem)
      requires Valid()
      modifies this
      ensures Valid()
      ensures State() == T.PlaySingle(old(State()), open, m)
      ensures library == old(library) && filteredLibrary == old(filteredLibrary)
    {
      playingFromQueue := false;
      queueIndex := -1;
      PlayUri(open, m.contentUri);
    }

    method AddToQueue(m: MediaItem)
      requires Valid()
      modifies this
      ensures Valid()
      ensures State() == T.AddToQueue(old(State()), m)
      ensures library == old(library) && filteredLibrary == old(filteredLibrary)
    {
      playQueue := playQueue + [m];
    }

    /**
     * The queue dialog's remove button: the entry leaves the queue and
     * queueIndex stays where it was.
     */
    method RemoveFromQueue(position: int)
      requires Valid()
      modifies this
      ensures Valid()
      ensures State() == T.RemoveFromQueueAsWritten(old(State()), position)
      ensures library == old(library) && filteredLibrary == old(filteredLibrary)
    {
      if 0 <= position < |playQueue| {
        playQueue := RemoveAt(playQueue, position);
      }
    }

    /** The scan's result handed to the UI thread: the library, and an unfiltered view of it. */
    method LibraryLoaded(scanned: seq<MediaItem>)
      modifies this
      ensures library == scanned && filteredLibrary == scanned
      ensures State() == old(State())
    {
      library := scanned;
      filteredLibrary := library;
    }

    /** doFilter: the view is cleared, then refilled from the whole library. */
    method DoFilter(q: Option<string>)
      modifies this
      ensures filteredLibrary == Filtered(library, q)
      ensures library == old(library) && State() == old(State())
    {
      var nq := NormalizeQuery(q);
      filteredLibrary := [];
      if nq == "" {
        filteredLibrary := library;
        return;
      }
      var kept := SelectMatching(library, nq);
      filteredLibrary := kept;
    }
  }
}
