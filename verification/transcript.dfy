/**
 * Reading the RTTM text back into a timeline, transcribing each segment, and
 * assembling the meeting transcript document.
 */
module Transcript {
  import opened Wrappers
  import opened Seqs
  import opened Text
  import opened Timeline
  import opened Ordering

  // ---------------------------------------------------------------- parse_rttm

  /** The tag a speaker line starts with. */
  const SpeakerTag := "SPEAKER"

  /**
   * What `parse_rttm` makes of one line: the stripped line split on
   * whitespace must have at least 9 fields, the first being `SPEAKER`; fields
   * 3 and 4 (onset and duration) must be numbers as `parseNumber` reads them
   * (Python's `float`); the track spans [onset, onset + duration] and carries
   * field 7 as its label. Any other line gives None.
   */
  function ParseLine(line: string, parseNumber: string -> Option<real>): Option<Track>
  {
    var parts := Split(Strip(line));
    if |parts| < 9 || parts[0] != SpeakerTag then None
    else
      var start, duration := parseNumber(parts[3]), parseNumber(parts[4]);
      if start.None? || duration.None? then None
      else Some(Track(Spanning(start.value, duration.value), parts[7]))
  }

  /** The timeline `parse_rttm` builds: one track per accepted line, in line order. */
  function ParseAll(lines: seq<string>, parseNumber: string -> Option<real>): seq<Track>
  {
    FilterMap(lines, line => ParseLine(line, parseNumber))
  }

  /**
   * `parse_rttm`: reads the lines in order, skips (with a warning) lines that
   * are too short or not speaker lines, skips (with an error) lines whose
   * onset or duration is not a number, and adds a track for every other line.
   */
  method ParseRttm(lines: seq<string>, parseNumber: string -> Option<real>) returns (diarization: seq<Track>)
    ensures diarization == ParseAll(lines, parseNumber)
    ensures |diarization| <= |lines|
  {
    diarization := [];
    for i := 0 to |lines|
      invariant diarization == ParseAll(lines[..i], parseNumber)
    {
      ParseAllStep(lines, i, parseNumber);
      var parts := Split(Strip(lines[i]));
      if |parts| < 9 || parts[0] != SpeakerTag {
        assert ParseLine(lines[i], parseNumber) == None;
        continue;
      }
      var start, duration := parseNumber(parts[3]), parseNumber(parts[4]);
      if start.None? || duration.None? {
        assert ParseLine(lines[i], parseNumber) == None;
        continue;
      }
      var track := Track(Spanning(start.value, duration.value), parts[7]);
      assert ParseLine(lines[i], parseNumber) == Some(track);
      diarization := diarization + [track];
    }
    assert lines[..|lines|] == lines;
    ghost var _ := ParsedTracks(lines, parseNumber);
  }

  /** Parsing one more line appends that line's track, if any. */
  lemma ParseAllStep(lines: seq<string>, i: nat, parseNumber: string -> Option<real>)
    requires i < |lines|
    ensures ParseAll(lines[..i + 1], parseNumber) == ParseAll(lines[..i], parseNumber) + Emit(ParseLine(lines[i], parseNumber))
  {
    FilterMapStep(lines, i, line => ParseLine(line, parseNumber));
  }

  /**
   * A speaker line written as fields separated by single spaces and ended by
   * whitespace gives a track from fields 3, 4 and 7; the fields after the
   * ninth, if any, are ignored.
   */
  lemma ParseFields(fields: seq<string>, extra: seq<string>, tail: string, parseNumber: string -> Option<real>)
    requires |fields| == 9 && fields[0] == SpeakerTag
    requires forall k :: 0 <= k < |fields + extra| ==> IsToken((fields + extra)[k])
    requires AllSpace(tail)
    ensures ParseLine(Join(fields + extra) + tail, parseNumber) ==
      var start, duration := parseNumber(fields[3]), parseNumber(fields[4]);
      if start.None? || duration.None? then None
      else Some(Track(Spanning(start.value, duration.value), fields[7]))
  {
    var all := fields + extra;
    assert |all| >= 9 && all[0] == SpeakerTag && all[3] == fields[3] && all[4] == fields[4] && all[7] == fields[7];
    SplitLine(all, tail);
  }

  /** A line with fewer than 9 fields, or whose first field is not `SPEAKER`, is skipped. */
  lemma ParseRejects(fields: seq<string>, tail: string, parseNumber: string -> Option<real>)
    requires forall k :: 0 <= k < |fields| ==> IsToken(fields[k])
    requires AllSpace(tail)
    requires |fields| < 9 || fields[0] != SpeakerTag
    ensures ParseLine(Join(fields) + tail, parseNumber) == None
  {
    SplitLine(fields, tail);
  }

  /** A skipped line does not disturb the lines around it: parsing distributes over the text. */
  lemma ParseSkips(before: seq<string>, bad: string, after: seq<string>, parseNumber: string -> Option<real>)
    requires ParseLine(bad, parseNumber) == None
    ensures ParseAll(before + [bad] + after, parseNumber) == ParseAll(before, parseNumber) + ParseAll(after, parseNumber)
  {
    FilterMapSkip(before, bad, after, line => ParseLine(line, parseNumber));
  }

  /**
   * Each parsed track comes from exactly one accepted line, in line order, and
   * every accepted line gives a track; the label is a whitespace-free field.
   */
  lemma ParsedTracks(lines: seq<string>, parseNumber: string -> Option<real>) returns (idx: seq<nat>)
    ensures |idx| == |ParseAll(lines, parseNumber)| <= |lines|
    ensures forall k :: 0 <= k < |idx| ==>
      idx[k] < |lines| && ParseLine(lines[idx[k]], parseNumber) == Some(ParseAll(lines, parseNumber)[k])
    ensures forall k, l :: 0 <= k < l < |idx| ==> idx[k] < idx[l]
    ensures forall i :: 0 <= i < |lines| && ParseLine(lines[i], parseNumber).Some? ==> i in idx
    ensures forall k :: 0 <= k < |idx| ==> IsToken(ParseAll(lines, parseNumber)[k].speaker)
  {
    idx := FilterMapOrigins(lines, line => ParseLine(line, parseNumber));
    forall k | 0 <= k < |idx|
      ensures IsToken(ParseAll(lines, parseNumber)[k].speaker)
    {
      ParsedLabel(lines[idx[k]], parseNumber);
    }
  }

  /** The label of an accepted line is one whitespace-free field. */
  lemma ParsedLabel(line: string, parseNumber: string -> Option<real>)
    ensures ParseLine(line, parseNumber).Some? ==> IsToken(ParseLine(line, parseNumber).value.speaker)
  {
    SplitTokens(Strip(line));
  }

  // -------------------------------------------------- preprocess_audio_segment

  /** Python's `int(x)` on a number: truncation toward zero. */
  function Trunc(x: real): (n: int)
    ensures x >= 0.0 ==> 0.0 <= x - n as real < 1.0
    ensures x < 0.0 ==> -1.0 < x - n as real <= 0.0
  {
    if x >= 0.0 then x.Floor else -((-x).Floor)
  }

  /** Truncation keeps order. */
  lemma TruncMonotone(x: real, y: real)
    requires x <= y
    ensures Trunc(x) <= Trunc(y)
  {
  }

  /** The millisecond bounds of the slice cut for a segment: `int(start * 1000)` and `int(end * 1000)`. */
  function SliceBounds(segment: Segment): (int, int)
  {
    (Trunc(segment.start * 1000.0), Trunc(segment.end * 1000.0))
  }

  /** The slice bounds are within a millisecond of the segment's ends, and in order when the segment is. */
  lemma SliceBoundsAgree(segment: Segment)
    ensures -1.0 < segment.start * 1000.0 - SliceBounds(segment).0 as real < 1.0
    ensures -1.0 < segment.end * 1000.0 - SliceBounds(segment).1 as real < 1.0
    ensures segment.start <= segment.end ==> SliceBounds(segment).0 <= SliceBounds(segment).1
  {
    if segment.start <= segment.end {
      TruncMonotone(segment.start * 1000.0, segment.end * 1000.0);
    }
  }

  /** Truncation leaves whole numbers alone. */
  lemma TruncWhole(m: int)
    ensures Trunc(m as real) == m
  {
  }

  /** A segment whose ends are whole milliseconds is sliced exactly at those milliseconds. */
  lemma SliceBoundsWhole(startMs: int, endMs: int)
    ensures SliceBounds(Segment(startMs as real / 1000.0, endMs as real / 1000.0)) == (startMs, endMs)
  {
    var start, end := startMs as real / 1000.0, endMs as real / 1000.0;
    assert start * 1000.0 == startMs as real;
    assert end * 1000.0 == endMs as real;
    TruncWhole(startMs);
    TruncWhole(endMs);
  }

  /**
   * `preprocess_audio_segment`: cuts the slice, hands it to the recogniser
   * and returns its text stripped of surrounding whitespace. `recognise`
   * stands for loading the audio, cutting and converting the slice and
   * running the speech model; None means any of these raised, and then the
   * statement is empty.
   */
  function SegmentStatement(segment: Segment, recognise: (int, int) -> Option<string>): (statement: string)
    ensures Trimmed(statement)
    ensures recognise(SliceBounds(segment).0, SliceBounds(segment).1).None? ==> statement == []
    ensures recognise(SliceBounds(segment).0, SliceBounds(segment).1).Some? ==>
      Framed(recognise(SliceBounds(segment).0, SliceBounds(segment).1).value, statement)
  {
    var (startMs, endMs) := SliceBounds(segment);
    match recognise(startMs, endMs)
    case None => ""
    case Some(text) => Strip(text)
  }

  // -------------------------------------------------------- process_transcript

  const DefaultLocation := "Video Call"
  const ClosingNote := "End of meeting transcript."

  datatype DialogEntry = DialogEntry(speaker: string, statement: string)

  /** The document written as JSON under the key "Meeting". */
  datatype Meeting = Meeting(
    title: string,
    date: string,
    time: string,
    location: string,
    participants: seq<string>,
    dialog: seq<DialogEntry>,
    closingNote: string)

  /** The dialog entry for one track, if its statement is not empty. */
  function EntryFor(t: Track, recognise: (int, int) -> Option<string>): Option<DialogEntry>
  {
    var statement := SegmentStatement(t.segment, recognise);
    if statement == [] then None else Some(DialogEntry(t.speaker, statement))
  }

  /** The dialog: one entry per track with a non-empty statement, in track order. */
  function DialogOf(tracks: seq<Track>, recognise: (int, int) -> Option<string>): seq<DialogEntry>
  {
    FilterMap(tracks, t => EntryFor(t, recognise))
  }

  /** The speakers of a dialog. */
  function SpeakerSet(dialog: seq<DialogEntry>): set<string>
  {
    set e | e in dialog :: e.speaker
  }

  /**
   * Every dialog entry comes from one track with that track's speaker and a
   * non-empty, stripped statement, in track order; every track with a
   * non-empty statement has its entry.
   */
  lemma DialogEntries(tracks: seq<Track>, recognise: (int, int) -> Option<string>) returns (idx: seq<nat>)
    ensures |idx| == |DialogOf(tracks, recognise)| <= |tracks|
    ensures forall k :: 0 <= k < |idx| ==>
      && idx[k] < |tracks|
      && DialogOf(tracks, recognise)[k] ==
        DialogEntry(tracks[idx[k]].speaker, SegmentStatement(tracks[idx[k]].segment, recognise))
      && DialogOf(tracks, recognise)[k].statement != []
      && Trimmed(DialogOf(tracks, recognise)[k].statement)
    ensures forall k, l :: 0 <= k < l < |idx| ==> idx[k] < idx[l]
    ensures forall i :: 0 <= i < |tracks| && SegmentStatement(tracks[i].segment, recognise) != [] ==> i in idx
  {
    idx := FilterMapOrigins(tracks, t => EntryFor(t, recognise));
  }

  /**
   * A speaker is in the dialog exactly when one of its tracks has a
   * non-empty statement; a speaker whose statements are all empty is absent.
   */
  lemma DialogSpeakers(tracks: seq<Track>, recognise: (int, int) -> Option<string>, speaker: string)
    ensures speaker in SpeakerSet(DialogOf(tracks, recognise)) <==>
      exists i :: 0 <= i < |tracks| && tracks[i].speaker == speaker && SegmentStatement(tracks[i].segment, recognise) != []
  {
    var dialog := DialogOf(tracks, recognise);
    forall i | 0 <= i < |tracks| && SegmentStatement(tracks[i].segment, recognise) != []
      ensures tracks[i].speaker in SpeakerSet(dialog)
    {
      FilterMapKept(tracks, i, t => EntryFor(t, recognise));
    }
    if speaker in SpeakerSet(dialog) {
      var e :| e in dialog && e.speaker == speaker;
      var i := FilterMapSource(tracks, e, t => EntryFor(t, recognise));
      assert tracks[i].speaker == speaker && SegmentStatement(tracks[i].segment, recognise) != [];
    }
  }

  /** Transcribing one more track appends its entry, if its statement is not empty. */
  lemma DialogStep(tracks: seq<Track>, i: nat, recognise: (int, int) -> Option<string>)
    requires i < |tracks|
    ensures DialogOf(tracks[..i + 1], recognise) == DialogOf(tracks[..i], recognise) + Emit(EntryFor(tracks[i], recognise))
  {
    FilterMapStep(tracks, i, t => EntryFor(t, recognise));
  }

  lemma SpeakerSetAppend(dialog: seq<DialogEntry>, e: DialogEntry)
    ensures SpeakerSet(dialog + [e]) == SpeakerSet(dialog) + {e.speaker}
  {
    assert forall x :: x in dialog + [e] <==> x in dialog || x == e;
  }

  /**
   * `process_transcript`: parses the RTTM text, transcribes every track in
   * order, keeps the tracks with a non-empty statement as dialog entries,
   * and lists as participants the sorted distinct speakers of the dialog;
   * the `participants` the caller passes are not used. The date and time are
   * the clock readings the caller supplies. Writing the document as JSON is
   * not modelled.
   */
  method ProcessTranscript(
    rttm: seq<string>, parseNumber: string -> Option<real>, recognise: (int, int) -> Option<string>,
    title: string, participants: seq<string>, location: string, date: string, time: string)
    returns (transcript: Meeting)
    ensures transcript.dialog == DialogOf(ParseAll(rttm, parseNumber), recognise)
    ensures StrictlySorted(transcript.participants)
    ensures Elems(transcript.participants) == SpeakerSet(transcript.dialog)
    ensures transcript.title == title && transcript.location == location
    ensures transcript.date == date && transcript.time == time
    ensures transcript.closingNote == ClosingNote
  {
    var diarization := ParseRttm(rttm, parseNumber);
    var dialog, speakers := Transcribe(diarization, recognise);
    var sortedSpeakers := SortedList(speakers);
    transcript := Meeting(title, date, time, location, sortedSpeakers, dialog, ClosingNote);
  }

  /**
   * The loop of `process_transcript`: transcribes the tracks in order,
   * appends an entry for each non-empty statement and collects the
   * speakers of the entries.
   */
  method Transcribe(diarization: seq<Track>, recognise: (int, int) -> Option<string>)
    returns (dialog: seq<DialogEntry>, speakers: set<string>)
    ensures dialog == DialogOf(diarization, recognise)
    ensures speakers == SpeakerSet(dialog)
  {
    dialog, speakers := [], {};
    for i := 0 to |diarization|
      invariant dialog == DialogOf(diarization[..i], recognise)
      invariant speakers == SpeakerSet(dialog)
    {
      DialogStep(diarization, i, recognise);
      var statement := SegmentStatement(diarization[i].segment, recognise);
      if statement != [] {
        var entry := DialogEntry(diarization[i].speaker, statement);
        assert EntryFor(diarization[i], recognise) == Some(entry);
        SpeakerSetAppend(dialog, entry);
        dialog := dialog + [entry];
        speakers := speakers + {entry.speaker};
      }
    }
    assert diarization[..|diarization|] == diarization;
  }
}
