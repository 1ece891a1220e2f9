/** Segments of the audio timeline and the labelled tracks on them. */
module Timeline {

  /** A stretch of the recording, in seconds. */
  datatype Segment = Segment(start: real, end: real)
  {
    function Duration(): real
    {
      end - start
    }
  }

  /** The segment that starts at `start` and lasts `duration`. */
  function Spanning(start: real, duration: real): (segment: Segment)
    ensures segment.start == start && segment.Duration() == duration
  {
    Segment(start, start + duration)
  }

  /** One segment attributed to one speaker label. */
  datatype Track = Track(segment: Segment, speaker: string)

  /** The labels that occur on the tracks. */
  function LabelSet(tracks: seq<Track>): set<string>
  {
    set t | t in tracks :: t.speaker
  }
}
