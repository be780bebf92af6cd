/**
 * The emergency siren's start/stop protocol. The playback thread and its
 * audio synthesis are abstracted away: what remains is the playing flag,
 * the stop request the thread polls, and whether a playback thread was
 * ever launched.
 */
module Siren {

  /** `np.clip(volume, 0.0, 1.0)`. */
  function ClampVolume(v: real): (r: real)
    ensures 0.0 <= r <= 1.0
    ensures 0.0 <= v <= 1.0 ==> r == v
    ensures v < 0.0 ==> r == 0.0
    ensures v > 1.0 ==> r == 1.0
  {
    if v < 0.0 then 0.0 else if v > 1.0 then 1.0 else v
  }

  /** The protocol state: `_is_playing`, the stop flag, and whether `_thread` was set. */
  datatype SirenState = SirenState(playing: bool, stopRequested: bool, threadStarted: bool)

  const Idle := SirenState(false, false, false)

  /** `start`: from idle, clears the stop request, marks playing and launches a thread; no-op while playing. */
  function Started(s: SirenState): (r: SirenState)
    ensures r.playing
    ensures s.playing ==> r == s
    ensures !s.playing ==> !r.stopRequested && r.threadStarted
  {
    if s.playing then s else SirenState(true, false, true)
  }

  /** `stop`: while playing, requests the thread to stop and marks not playing; no-op when idle. */
  function Stopped(s: SirenState): (r: SirenState)
    ensures !r.playing && r.threadStarted == s.threadStarted
    ensures !s.playing ==> r == s
    ensures s.playing ==> r.stopRequested
  {
    if !s.playing then s else s.(stopRequested := true, playing := false)
  }

  /** The playback loop's exit: whatever ended it, it marks the siren as not playing. */
  function PlaybackEnded(s: SirenState): (r: SirenState)
    ensures !r.playing && r.stopRequested == s.stopRequested && r.threadStarted == s.threadStarted
  {
    s.(playing := false)
  }

  /**
   * Start and stop are idempotent; start always leaves the siren playing
   * with no stop pending, and stop always leaves it not playing. A stop
   * after a start requests the thread to stop.
   */
  lemma StartStopProtocol(s: SirenState)
    ensures Started(Started(s)) == Started(s)
    ensures Stopped(Stopped(s)) == Stopped(s)
    ensures s.playing ==> Started(s) == s
    ensures !s.playing ==> Stopped(s) == s
    ensures Started(s).playing && (!s.playing ==> Started(s).threadStarted)
    ensures !s.playing ==> !Started(s).stopRequested
    ensures !Stopped(s).playing
    ensures s.playing ==> Stopped(s).stopRequested
    ensures Stopped(Started(s)).stopRequested && !Stopped(Started(s)).playing
  {
  }

  /** The siren object; `volume` is fixed at construction. */
  class EmergencySiren {
    const volume: real
    const sampleRate: nat
    const loopDuration: real
    var isPlaying: bool
    var stopFlag: bool
    var threadStarted: bool

    function Current(): SirenState
      reads this
    {
      SirenState(isPlaying, stopFlag, threadStarted)
    }

    constructor (volume: real, sampleRate: nat, loopDuration: real)
      ensures this.volume == ClampVolume(volume)
      ensures this.sampleRate == sampleRate && this.loopDuration == loopDuration
      ensures Current() == Idle
    {
      this.volume := ClampVolume(volume);
      this.sampleRate := sampleRate;
      this.loopDuration := loopDuration;
      isPlaying := false;
      stopFlag := false;
      threadStarted := false;
    }

    method Start()
      modifies this
      ensures Current() == Started(old(Current()))
    {
      if isPlaying {
        return;
      }
      stopFlag := false;
      isPlaying := true;
      threadStarted := true;
    }

    method Stop()
      modifies this
      ensures Current() == Stopped(old(Current()))
    {
      if !isPlaying {
        return;
      }
      stopFlag := true;
      isPlaying := false;
    }

    /** `is_playing`: exactly the playing flag. */
    method IsPlaying() returns (playing: bool)
      ensures playing <==> Current().playing
    {
      playing := isPlaying;
    }

    /** The `finally` block of the playback loop. */
    method FinishPlayback()
      modifies this
      ensures Current() == PlaybackEnded(old(Current()))
    {
      isPlaying := false;
    }
  }
}
