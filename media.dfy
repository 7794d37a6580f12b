/**
 * The part of the browser's media API the counting tool touches: a camera
 * stream is a fixed list of tracks, and a track is live until it is stopped.
 */
module Media {

  datatype ReadyState = Live | Ended

  class MediaStreamTrack {
    var readyState: ReadyState

    constructor ()
      ensures readyState == Live
    {
      readyState := Live;
    }

    /** `track.stop()`; stopping an ended track is harmless. */
    method Stop()
      modifies this
      ensures readyState == Ended
    {
      readyState := Ended;
    }
  }

  class MediaStream {
    /** `stream.getTracks()`; the tool never adds or removes tracks. */
    const tracks: seq<MediaStreamTrack>

    constructor (tracks: seq<MediaStreamTrack>)
      ensures this.tracks == tracks
    {
      this.tracks := tracks;
    }

    /** The camera is released once no track of the stream is live. */
    ghost predicate Released()
      reads tracks
    {
      forall t :: t in tracks ==> t.readyState == Ended
    }

    /** `stream.getTracks().forEach((track) => track.stop())` */
    method StopTracks()
      modifies tracks
      ensures Released()
    {
      for i := 0 to |tracks|
        invariant forall j :: 0 <= j < i ==> tracks[j].readyState == Ended
      {
        tracks[i].Stop();
      }
    }
  }
}
