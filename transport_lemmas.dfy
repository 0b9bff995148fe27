/**
 * What the playback handlers promise, stated over the Transport state machine.
 */
module TransportLemmas {
  import opened Wrappers
  import opened Media
  import opened Transport

  // ---------------------------------------------------------------------------
  // Skipping inside the queue
  // ---------------------------------------------------------------------------

  /**
   * skipToNextInQueue: when allowed, the index moves up by exactly one onto an
   * existing entry, which is what gets loaded; otherwise nothing changes. The
   * guard alone makes this hold in every state, including after removals.
   */
  lemma SkipNextMoves(s: Transport, open: Opener)
    ensures CanSkipNext(s) ==>
      var t := SkipNext(s, open);
      && t.index == s.index + 1 && 0 <= t.index < |s.queue|
      && t.queue == s.queue && t.fromQueue
      && t.player == PlayUri(open, s.queue[t.index].contentUri)
      && t == s.(index := t.index, player := t.player)
    ensures !CanSkipNext(s) ==> SkipNext(s, open) == s
  {
  }

  /** skipToPreviousInQueue: the mirror image, moving down by exactly one. */
  lemma SkipPrevMoves(s: Transport, open: Opener)
    ensures CanSkipPrev(s) ==>
      var t := SkipPrev(s, open);
      && t.index == s.index - 1 && 0 <= t.index < |s.queue|
      && t.queue == s.queue && t.fromQueue
      && t.player == PlayUri(open, s.queue[t.index].contentUri)
      && t == s.(index := t.index, player := t.player)
    ensures !CanSkipPrev(s) ==> SkipPrev(s, open) == s
  {
  }

  /** Next then previous comes back to the same entry, loaded afresh. */
  lemma NextThenPrev(s: Transport, open: Opener)
    requires CanSkipNext(s)
    ensures CanSkipPrev(SkipNext(s, open))
    ensures SkipPrev(SkipNext(s, open), open) == s.(player := PlayUri(open, s.queue[s.index].contentUri))
  {
  }

  /** Previous then next comes back to the same entry, loaded afresh. */
  lemma PrevThenNext(s: Transport, open: Opener)
    requires CanSkipPrev(s)
    ensures CanSkipNext(SkipPrev(s, open))
    ensures SkipNext(SkipPrev(s, open), open) == s.(player := PlayUri(open, s.queue[s.index].contentUri))
  {
  }

  /** startQueuePlayback: the list's first entry plays in queue mode; an empty list is refused with nothing changed. */
  lemma StartQueueSpec(s: Transport, open: Opener, list: seq<MediaItem>)
    ensures list == [] ==> StartQueue(s, open, list) == s
    ensures list != [] ==>
      var t := StartQueue(s, open, list);
      && t.queue == list && t.index == 0 && t.fromQueue
      && t.player == PlayUri(open, list[0].contentUri)
      && !CanSkipPrev(t) && (CanSkipNext(t) <==> |list| > 1)
  {
  }

  // ---------------------------------------------------------------------------
  // Completion
  // ---------------------------------------------------------------------------

  /**
   * The completion listener does exactly what the next button would when the
   * queue has a further entry, and otherwise stops and leaves queue mode with
   * the queue itself kept.
   */
  lemma CompletionSpec(s: Transport, open: Opener)
    requires s.player.Loaded?
    ensures CanSkipNext(s) ==> Completion(s, open) == SkipNext(s, open)
    ensures !CanSkipNext(s) ==>
      var t := Completion(s, open);
      && !t.fromQueue && t.index == -1 && t.seekBar == 0 && t.queue == s.queue
      && t.player == s.player.(playing := false)
  {
  }

  /** Letting k tracks end in a row walks the queue entry by entry: k completions from entry i play entry i + k. */
  lemma {:induction false} CompletionWalksQueue(s: Transport, open: Opener, k: nat)
    requires s.fromQueue && 0 <= s.index && s.index + k < |s.queue|
    requires forall j :: s.index < j <= s.index + k ==> open(s.queue[j].contentUri).Some?
    requires s.player.Loaded?
    decreases k
    ensures var t := CompleteTimes(s, open, k);
      t.player.Loaded? && t.fromQueue && t.index == s.index + k && t.queue == s.queue
      && (k > 0 ==> t.player.uri == s.queue[s.index + k].contentUri)
  {
    if k > 0 {
      var s1 := Completion(s, open);
      assert s1.index == s.index + 1;
      CompletionWalksQueue(s1, open, k - 1);
      CompleteTimesUnfold(s, open, k);
    }
  }

  /** k completion events in a row, each of the player that the previous one loaded. */
  function CompleteTimes(s: Transport, open: Opener, k: nat): Transport
    decreases k
  {
    if k == 0 || s.player.NoPlayer? then s else CompleteTimes(Completion(s, open), open, k - 1)
  }

  lemma CompleteTimesUnfold(s: Transport, open: Opener, k: nat)
    requires k > 0 && s.player.Loaded?
    ensures CompleteTimes(s, open, k) == CompleteTimes(Completion(s, open), open, k - 1)
  {
  }

  // ---------------------------------------------------------------------------
  // The dual-purpose skip buttons
  // ---------------------------------------------------------------------------

  /** In queue mode with a next entry the forward button skips; otherwise it seeks 15 s on, never past the end. */
  lemma SkipForwardSpec(s: Transport, open: Opener)
    requires Valid(s)
    ensures CanSkipNext(s) ==> SkipForward(s, open) == SkipNext(s, open)
    ensures !CanSkipNext(s) && s.player.NoPlayer? ==> SkipForward(s, open) == s
    ensures !CanSkipNext(s) && s.player.Loaded? ==>
      var t := SkipForward(s, open);
      && t.player.Loaded? && t.player == s.player.(position := t.player.position)
      && s.player.position <= t.player.position <= s.player.duration
      && (t.player.position == s.player.position + SkipMs || t.player.position == s.player.duration)
      && t.seekBar == t.player.position
      && t == s.(player := t.player, seekBar := t.seekBar)
  {
  }

  /** In queue mode with an earlier entry the back button skips; otherwise it seeks 15 s back, never before 0. */
  lemma SkipBackSpec(s: Transport, open: Opener)
    requires Valid(s)
    ensures CanSkipPrev(s) ==> SkipBack(s, open) == SkipPrev(s, open)
    ensures !CanSkipPrev(s) && s.player.NoPlayer? ==> SkipBack(s, open) == s
    ensures !CanSkipPrev(s) && s.player.Loaded? ==>
      var t := SkipBack(s, open);
      && t.player.Loaded? && t.player == s.player.(position := t.player.position)
      && 0 <= t.player.position <= s.player.position
      && (t.player.position == s.player.position - SkipMs || t.player.position == 0)
      && t.seekBar == t.player.position
      && t == s.(player := t.player, seekBar := t.seekBar)
  {
  }

  // ---------------------------------------------------------------------------
  // Mute and volume
  // ---------------------------------------------------------------------------

  /** Mute silences and saves the volume; the following unmute restores it, and only the saved volume differs from before. */
  lemma MuteThenUnmute(s: Transport)
    requires !s.muted
    ensures ToggleMute(s).volume == 0 && ToggleMute(s).muted && ToggleMute(s).previousVolume == s.volume
    ensures ToggleMute(ToggleMute(s)) == s.(previousVolume := s.volume)
  {
  }

  /** The button is a toggle: pressing it twice from muted comes back muted at volume 0. */
  lemma UnmuteThenMute(s: Transport)
    requires s.muted
    ensures ToggleMute(s).volume == s.previousVolume && !ToggleMute(s).muted
    ensures ToggleMute(ToggleMute(s)) == s.(volume := 0)
  {
  }

  /** Raising the volume bar while muted ends the muted state, so the next press mutes again and saves the new volume. */
  lemma VolumeWhileMuted(s: Transport, progress: int)
    requires s.muted && progress > 0
    ensures !VolumeBar(s, progress).muted
    ensures ToggleMute(VolumeBar(s, progress)) == s.(volume := 0, previousVolume := progress, muted := true)
  {
  }

  // ---------------------------------------------------------------------------
  // Speed
  // ---------------------------------------------------------------------------

  /**
   * With a player, three presses of the speed button bring the index back;
   * when the device accepts each rate the player ends at the rate it began
   * with, provided that rate was the one the index named.
   */
  lemma SpeedCycle(s: Transport, ok1: bool, ok2: bool, ok3: bool)
    requires Valid(s) && s.player.Loaded?
    ensures CycleSpeed(CycleSpeed(CycleSpeed(s, ok1), ok2), ok3).speedIndex == s.speedIndex
    ensures CycleSpeed(s, true).player.rateIndex == CycleSpeed(s, true).speedIndex
    ensures CycleSpeed(s, false).player == s.player && CycleSpeed(s, false).speedIndex != s.speedIndex
  {
  }

  /** A newly loaded track runs at normal speed, while the index the speed button shows is carried over. */
  lemma NewTrackResetsRate(s: Transport, open: Opener)
    requires CanSkipNext(s) && open(s.queue[s.index + 1].contentUri).Some?
    ensures SkipNext(s, open).player.rateIndex == 0
    ensures SkipNext(s, open).speedIndex == s.speedIndex
  {
  }

  // ---------------------------------------------------------------------------
  // The header and the invariant
  // ---------------------------------------------------------------------------

  /** The header's buttons are enabled exactly when the corresponding skip is allowed, and its "now" entry exists. */
  lemma HeaderMatchesSkips(s: Transport)
    ensures Header(s).prevEnabled == CanSkipPrev(s)
    ensures Header(s).nextEnabled == CanSkipNext(s)
    ensures Header(s).now.Some? <==> s.fromQueue && 0 <= s.index < |s.queue|
    ensures Header(s).now.Some? ==> Header(s).now.value == DisplayFor(s.queue[s.index])
  {
  }

  /** The queue handlers keep Valid. */
  lemma QueueHandlersKeepValid(s: Transport, open: Opener, list: seq<MediaItem>, m: MediaItem, position: int)
    requires Valid(s)
    ensures Valid(StartQueue(s, open, list))
    ensures Valid(SkipNext(s, open)) && Valid(SkipPrev(s, open))
    ensures s.player.Loaded? ==> Valid(Completion(s, open))
    ensures Valid(PlaySingle(s, open, m)) && Valid(AddToQueue(s, m))
    ensures Valid(RemoveFromQueueAsWritten(s, position)) && Valid(RemoveFromQueue(s, position))
  {
  }

  /** The skip buttons keep Valid: a seek stays within the track. */
  lemma SkipButtonsKeepValid(s: Transport, open: Opener)
    requires Valid(s)
    ensures Valid(SkipForward(s, open)) && Valid(SkipBack(s, open))
  {
  }

  /** The remaining controls keep Valid, given what each widget guarantees about its argument. */
  lemma ControlsKeepValid(s: Transport, progress: int, supported: bool)
    requires Valid(s)
    ensures Valid(PlayPause(s)) && Valid(ToggleMute(s)) && Valid(CycleSpeed(s, supported))
    ensures 0 <= progress <= s.maxVolume ==> Valid(VolumeBar(s, progress))
    ensures (s.player.Loaded? ==> 0 <= progress <= s.player.duration) ==> Valid(UserSeek(s, progress))
  {
  }

  // ---------------------------------------------------------------------------
  // The current entry is the playing track
  // ---------------------------------------------------------------------------

  /** In queue mode the entry at the index is the track the player has loaded. */
  predicate NowPlaying(s: Transport) {
    s.fromQueue && s.player.Loaded? ==> 0 <= s.index < |s.queue| && s.queue[s.index].contentUri == s.player.uri
  }

  /** Every queue handler besides removal keeps the current entry and the loaded track together. */
  lemma QueueHandlersKeepNowPlaying(s: Transport, open: Opener, list: seq<MediaItem>, m: MediaItem)
    requires Valid(s) && NowPlaying(s)
    ensures NowPlaying(StartQueue(s, open, list))
    ensures NowPlaying(SkipNext(s, open)) && NowPlaying(SkipPrev(s, open))
    ensures s.player.Loaded? ==> NowPlaying(Completion(s, open))
    ensures NowPlaying(PlaySingle(s, open, m)) && NowPlaying(AddToQueue(s, m))
  {
  }

  /** The buttons and bars move within the loaded track, so they keep it the one at the index. */
  lemma ControlsKeepNowPlaying(s: Transport, open: Opener, progress: int, supported: bool)
    requires Valid(s) && NowPlaying(s)
    ensures NowPlaying(SkipForward(s, open)) && NowPlaying(SkipBack(s, open))
    ensures NowPlaying(PlayPause(s)) && NowPlaying(ToggleMute(s)) && NowPlaying(CycleSpeed(s, supported))
    ensures NowPlaying(VolumeBar(s, progress)) && NowPlaying(UserSeek(s, progress))
  {
  }

  /**
   * As written, removing an entry before the current one leaves the index in
   * place, so it then names the entry after the one playing: with the second
   * of three tracks playing, removing the first makes the header show the
   * third, and the skip ahead is refused although a next track is queued.
   */
  lemma RemoveAsWrittenLosesCurrent(a: MediaItem, b: MediaItem, c: MediaItem, duration: nat)
    requires b.contentUri != c.contentUri
    ensures var s := Transport([a, b, c], 1, true, Loaded(b.contentUri, 0, duration, true, 0), 0, 0, 0, false, 0, 0);
      var t := RemoveFromQueueAsWritten(s, 0);
      && Valid(s) && NowPlaying(s) && Header(s).now == Some(DisplayFor(b)) && CanSkipNext(s)
      && t.queue == [b, c] && t.player == s.player
      && !NowPlaying(t) && Header(t).now == Some(DisplayFor(c)) && !CanSkipNext(t)
  {
    var s := Transport([a, b, c], 1, true, Loaded(b.contentUri, 0, duration, true, 0), 0, 0, 0, false, 0, 0);
    assert RemoveAt(s.queue, 0) == [b, c];
  }

  /**
   * In the same situation, when b finishes: as written queue mode ends and
   * c is never played; with the index following its entry, c plays next.
   */
  lemma RemoveAsWrittenDropsNext(a: MediaItem, b: MediaItem, c: MediaItem, duration: nat, open: Opener)
    ensures var s := Transport([a, b, c], 1, true, Loaded(b.contentUri, 0, duration, true, 0), 0, 0, 0, false, 0, 0);
      var t := Completion(RemoveFromQueueAsWritten(s, 0), open);
      var u := Completion(RemoveFromQueue(s, 0), open);
      && !t.fromQueue && t.index == -1 && t.player == s.player.(playing := false)
      && u.fromQueue && u.index == 1 && u.player == PlayUri(open, c.contentUri)
  {
    var s := Transport([a, b, c], 1, true, Loaded(b.contentUri, 0, duration, true, 0), 0, 0, 0, false, 0, 0);
    assert RemoveAt(s.queue, 0) == [b, c];
  }

  /**
   * With the index following its entry, removing any other entry keeps the
   * current entry current, so the loaded track stays the one at the index.
   */
  lemma RemoveKeepsCurrent(s: Transport, position: int)
    requires Valid(s) && s.fromQueue && s.index < |s.queue|
    requires 0 <= position < |s.queue| && position != s.index
    ensures var t := RemoveFromQueue(s, position);
      && 0 <= t.index < |t.queue| && t.queue[t.index] == s.queue[s.index]
      && |t.queue| == |s.queue| - 1 && t.fromQueue
    ensures NowPlaying(s) ==> NowPlaying(RemoveFromQueue(s, position))
  {
    var t := RemoveFromQueue(s, position);
    if position < s.index {
      assert t.queue[t.index] == s.queue[t.index + 1];
    } else {
      assert t.queue[t.index] == s.queue[t.index];
    }
  }

  /**
   * Removing the playing entry itself: both versions of the button agree,
   * the index stays, the player keeps the removed track, and the index then
   * names the entry that followed it, or nothing when it was the last.
   */
  lemma RemoveCurrentEntry(s: Transport)
    requires Valid(s) && s.fromQueue && s.index < |s.queue|
    ensures RemoveFromQueue(s, s.index) == RemoveFromQueueAsWritten(s, s.index)
    ensures var t := RemoveFromQueue(s, s.index);
      && t.index == s.index && t.player == s.player && t.fromQueue
      && |t.queue| == |s.queue| - 1
      && (s.index < |t.queue| ==> t.queue[s.index] == s.queue[s.index + 1] && Header(t).now == Some(DisplayFor(s.queue[s.index + 1])))
      && (s.index == |t.queue| ==> Header(t).now == None && !CanSkipNext(t))
  {
    var t := RemoveFromQueue(s, s.index);
    if s.index < |t.queue| {
      assert t.queue[s.index] == s.queue[s.index + 1];
    }
  }

  /** Removal never touches the mode, so the skip guards stay the only protection, and they suffice. */
  lemma RemoveThenSkipSafe(s: Transport, position: int, open: Opener)
    ensures var t := RemoveFromQueueAsWritten(s, position);
      CanSkipNext(t) ==> 0 <= t.index + 1 < |t.queue|
    ensures var t := RemoveFromQueueAsWritten(s, position);
      CanSkipPrev(t) ==> 0 <= t.index - 1 < |t.queue|
  {
  }
}
