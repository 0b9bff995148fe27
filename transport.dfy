/**
 * The playback side of MainActivity as a state machine over values: the play
 * queue with its index and mode, the player reduced to what it is playing and
 * where, the stream volume with the mute toggle, and the speed index. Every
 * handler is a function from the state before to the state after.
 */
module Transport {
  import opened Wrappers
  import opened Media

  /** The skip buttons' seek step, in milliseconds. */
  const SkipMs: int := 15000
  /** The length of the speeds array {1f, 1.5f, 0.75f}; index 0 is normal speed. */
  const SpeedCount: int := 3

  /**
   * The MediaPlayer, or null. rateIndex is the index into the speeds array of
   * the rate the player runs at; a new player runs at speeds[0].
   */
  datatype Player =
    | NoPlayer
    | Loaded(uri: string, position: int, duration: int, playing: bool, rateIndex: int)

  /** MediaPlayer.create: the duration of the track if it loads, None when create returns null or throws. */
  type Opener = string -> Option<nat>

  datatype Transport = Transport(
    queue: seq<MediaItem>,
    index: int,
    fromQueue: bool,
    player: Player,
    seekBar: int,            // the progress of the position seek bar
    volume: int,             // the music stream volume
    maxVolume: int,
    muted: bool,
    previousVolume: int,
    speedIndex: int)

  /** What every handler keeps: the mode and the index agree, and the numbers stay in their ranges. */
  predicate Valid(s: Transport) {
    && (s.fromQueue ==> s.index >= 0)
    && (!s.fromQueue ==> s.index == -1)
    && (s.player.Loaded? ==>
          0 <= s.player.position <= s.player.duration && 0 <= s.player.rateIndex < SpeedCount)
    && 0 <= s.speedIndex < SpeedCount
    && 0 <= s.volume <= s.maxVolume
    && 0 <= s.previousVolume <= s.maxVolume
  }

  /** The state onCreate leaves: no queue, not muted, normal speed, and the bundled track if it loaded. */
  function Initial(volume: int, maxVolume: int, bundled: Player): (s: Transport)
    requires 0 <= volume <= maxVolume
    requires bundled.Loaded? ==> 0 <= bundled.duration && bundled.position == 0 && bundled.rateIndex == 0 && !bundled.playing
    ensures Valid(s)
    ensures !s.fromQueue && s.queue == [] && !s.muted
    ensures s.player == bundled && (s.player.Loaded? ==> !s.player.playing)
  {
    Transport([], -1, false, bundled, 0, volume, maxVolume, false, 0, 0)
  }

  /** prepareMediaPlayer(uri) followed by start() when a player came back. */
  function PlayUri(open: Opener, uri: string): (p: Player)
    ensures p.Loaded? <==> open(uri).Some?
    ensures p.Loaded? ==> p.uri == uri && p.position == 0 && p.duration == open(uri).value && p.playing && p.rateIndex == 0
  {
    match open(uri)
    case None => NoPlayer
    case Some(d) => Loaded(uri, 0, d, true, 0)
  }

  // ---------------------------------------------------------------------------
  // The queue
  // ---------------------------------------------------------------------------

  predicate CanSkipNext(s: Transport) {
    s.fromQueue && s.index >= 0 && s.index + 1 < |s.queue|
  }

  predicate CanSkipPrev(s: Transport) {
    s.fromQueue && s.index > 0 && s.index < |s.queue|
  }

  /** startQueuePlayback: an empty list changes nothing; otherwise the queue becomes the list, played from its first entry. */
  function StartQueue(s: Transport, open: Opener, list: seq<MediaItem>): Transport {
    if list == [] then s
    else s.(queue := list, index := 0, fromQueue := true, player := PlayUri(open, list[0].contentUri))
  }

  function SkipNext(s: Transport, open: Opener): Transport {
    if !CanSkipNext(s) then s
    else s.(index := s.index + 1, player := PlayUri(open, s.queue[s.index + 1].contentUri))
  }

  function SkipPrev(s: Transport, open: Opener): Transport {
    if !CanSkipPrev(s) then s
    else s.(index := s.index - 1, player := PlayUri(open, s.queue[s.index - 1].contentUri))
  }

  /**
   * The completion listener of the loaded player: the next queue entry if
   * there is one, otherwise the player stops, the seek bar goes back to 0 and
   * queue mode ends.
   */
  function Completion(s: Transport, open: Opener): Transport
    requires s.player.Loaded?
  {
    if s.fromQueue && s.index >= 0 && s.index + 1 < |s.queue| then
      s.(index := s.index + 1, player := PlayUri(open, s.queue[s.index + 1].contentUri))
    else
      s.(player := s.player.(playing := false), seekBar := 0, fromQueue := false, index := -1)
  }

  /** A library or playlist row tapped: the item plays on its own, outside queue mode. */
  function PlaySingle(s: Transport, open: Opener, m: MediaItem): Transport {
    s.(fromQueue := false, index := -1, player := PlayUri(open, m.contentUri))
  }

  /** "Add to queue": the item goes to the end; index and mode are untouched. */
  function AddToQueue(s: Transport, m: MediaItem): Transport {
    s.(queue := s.queue + [m])
  }

  /** The queue dialog's remove button, as written: the entry goes, the index stays where it was. */
  function RemoveFromQueueAsWritten(s: Transport, position: int): Transport {
    if 0 <= position < |s.queue| then s.(queue := RemoveAt(s.queue, position)) else s
  }

  /**
   * The remove button as evidently intended, with the index following its
   * entry: removing an entry before the current one shifts the index down by
   * one. The activity's handler does not do this; see RemoveFromQueueAsWritten.
   */
  function RemoveFromQueue(s: Transport, position: int): Transport {
    if 0 <= position < |s.queue| then
      s.(queue := RemoveAt(s.queue, position),
         index := if s.fromQueue && position < s.index then s.index - 1 else s.index)
    else s
  }

  // ---------------------------------------------------------------------------
  // The transport buttons
  // ---------------------------------------------------------------------------

  function Min(a: int, b: int): int { if a <= b then a else b }
  function Max(a: int, b: int): int { if a >= b then a else b }

  function SeekTo(s: Transport, target: int): Transport
    requires s.player.Loaded?
  {
    s.(player := s.player.(position := target), seekBar := target)
  }

  /** The forward button: the next queue entry in queue mode when there is one, otherwise a 15 s seek clamped to the end. */
  function SkipForward(s: Transport, open: Opener): Transport {
    if s.fromQueue && CanSkipNext(s) then SkipNext(s, open)
    else if s.player.NoPlayer? then s
    else SeekTo(s, Min(s.player.position + SkipMs, s.player.duration))
  }

  /** The back button: the previous queue entry in queue mode when there is one, otherwise a 15 s seek clamped to 0. */
  function SkipBack(s: Transport, open: Opener): Transport {
    if s.fromQueue && CanSkipPrev(s) then SkipPrev(s, open)
    else if s.player.NoPlayer? then s
    else SeekTo(s, Max(s.player.position - SkipMs, 0))
  }

  /** The seek bar dragged by the user to progress. */
  function UserSeek(s: Transport, progress: int): Transport {
    if s.player.NoPlayer? then s else s.(player := s.player.(position := progress), seekBar := progress)
  }

  function PlayPause(s: Transport): Transport {
    if s.player.NoPlayer? then s else s.(player := s.player.(playing := !s.player.playing))
  }

  /** The mute button: muting saves the volume and silences; unmuting restores the saved volume. */
  function ToggleMute(s: Transport): Transport {
    if !s.muted then s.(previousVolume := s.volume, volume := 0, muted := true)
    else s.(volume := s.previousVolume, muted := false)
  }

  /** The volume bar moved to progress: the stream volume follows; any audible volume ends the muted state. */
  function VolumeBar(s: Transport, progress: int): Transport {
    s.(volume := progress, muted := if progress > 0 then false else s.muted)
  }

  /**
   * The speed button: the index advances modulo 3 whenever a player exists;
   * the player takes the new rate only when setPlaybackParams succeeds.
   */
  function CycleSpeed(s: Transport, supported: bool): Transport {
    if s.player.NoPlayer? then s
    else
      var k := (s.speedIndex + 1) % SpeedCount;
      s.(speedIndex := k, player := if supported then s.player.(rateIndex := k) else s.player)
  }

  // ---------------------------------------------------------------------------
  // The queue dialog's header
  // ---------------------------------------------------------------------------

  datatype QueueHeader = QueueHeader(now: Option<string>, prev: string, next: string, prevEnabled: bool, nextEnabled: bool)

  /** updateHeader: now is None for the "not playing from queue" text. */
  function Header(s: Transport): QueueHeader {
    if s.fromQueue && s.index >= 0 && s.index < |s.queue| then
      QueueHeader(Some(DisplayFor(s.queue[s.index])),
                  if s.index > 0 then DisplayFor(s.queue[s.index - 1]) else "-",
                  if s.index + 1 < |s.queue| then DisplayFor(s.queue[s.index + 1]) else "-",
                  CanSkipPrev(s), CanSkipNext(s))
    else QueueHeader(None, "-", "-", false, false)
  }
}
