/**
 * The hand-off between the two stages: the RTTM text that
 * `refine_diarization` writes is the text `process_transcript` reads back.
 * Everything here rests on the assumed line format of
 * `IdentifySpeakers.RttmLine`.
 */
module Pipeline {
  import opened Wrappers
  import opened Seqs
  import opened Text
  import opened Decimal
  import opened Timeline
  import opened IdentifySpeakers
  import opened Transcript
  import opened Ordering

  /** A track whose onset and duration are whole milliseconds. */
  predicate OnGrid(t: Track)
  {
    WholeMillis(t.segment.start) && WholeMillis(t.segment.Duration())
  }

  /** `p` is `t` read back: same label, onset and duration each within half a millisecond. */
  predicate Close(p: Track, t: Track)
  {
    && p.speaker == t.speaker
    && -0.0005 <= p.segment.start - t.segment.start <= 0.0005
    && -0.0005 <= p.segment.Duration() - t.segment.Duration() <= 0.0005
  }

  /**
   * One written RTTM line is accepted by the parser and gives back the track
   * it was written from, up to the rounding to milliseconds, exactly when
   * the track is on the millisecond grid. The label must contain no
   * whitespace, or it would not survive the split into fields.
   */
  lemma RttmLineRoundTrip(t: Track)
    requires IsToken(t.speaker)
    ensures ParseLine(RttmLine(t), ParseDecimal).Some?
    ensures Close(ParseLine(RttmLine(t), ParseDecimal).value, t)
    ensures OnGrid(t) ==> ParseLine(RttmLine(t), ParseDecimal) == Some(t)
  {
    RttmLineFields(t, ParseDecimal);
    var start := Fixed3RoundTrip(t.segment.start);
    var duration := Fixed3RoundTrip(t.segment.Duration());
    ReadBack(t, start, duration);
  }

  /** A track rebuilt from an onset and a duration each read back within half a millisecond. */
  lemma ReadBack(t: Track, start: real, duration: real)
    requires -0.0005 <= start - t.segment.start <= 0.0005
    requires -0.0005 <= duration - t.segment.Duration() <= 0.0005
    requires WholeMillis(t.segment.start) ==> start == t.segment.start
    requires WholeMillis(t.segment.Duration()) ==> duration == t.segment.Duration()
    ensures Close(Track(Spanning(start, duration), t.speaker), t)
    ensures OnGrid(t) ==> Track(Spanning(start, duration), t.speaker) == t
  {
    if OnGrid(t) {
      SpanningItself(t.segment, start, duration);
    }
  }

  /** The parser reads a written line's onset, duration and label back from fields 3, 4 and 7. */
  lemma RttmLineFields(t: Track, parseNumber: string -> Option<real>)
    requires IsToken(t.speaker)
    ensures ParseLine(RttmLine(t), parseNumber) ==
      var start, duration := parseNumber(Fixed3(t.segment.start)), parseNumber(Fixed3(t.segment.Duration()));
      if start.None? || duration.None? then None
      else Some(Track(Spanning(start.value, duration.value), t.speaker))
  {
    Fixed3IsToken(t.segment.start);
    Fixed3IsToken(t.segment.Duration());
    RecordFields(Fixed3(t.segment.start), Fixed3(t.segment.Duration()), t.speaker, parseNumber);
  }

  lemma RecordFields(onset: string, duration: string, speaker: string, parseNumber: string -> Option<real>)
    requires IsToken(onset) && IsToken(duration) && IsToken(speaker)
    ensures ParseLine(Join(RttmRecord(onset, duration, speaker)) + "\n", parseNumber) ==
      if parseNumber(onset).None? || parseNumber(duration).None? then None
      else Some(Track(Spanning(parseNumber(onset).value, parseNumber(duration).value), speaker))
  {
    var fields := RttmRecord(onset, duration, speaker);
    RecordTokens(onset, duration, speaker);
    assert fields == fields[..9] + fields[9..];
    ParseFields(fields[..9], fields[9..], "\n", parseNumber);
  }

  /** Every field of a written line is free of whitespace when the three variable fields are. */
  lemma RecordTokens(onset: string, duration: string, speaker: string)
    requires IsToken(onset) && IsToken(duration) && IsToken(speaker)
    ensures forall k :: 0 <= k < |RttmRecord(onset, duration, speaker)| ==> IsToken(RttmRecord(onset, duration, speaker)[k])
  {
    assert IsToken("SPEAKER") && IsToken("<NA>") && IsToken("1");
  }

  /** Rebuilding a segment from its own onset and duration gives the segment back. */
  lemma SpanningItself(segment: Segment, start: real, duration: real)
    requires start == segment.start && duration == segment.Duration()
    ensures Spanning(start, duration) == segment
  {
  }

  /** A turn from 12.340 s lasting 3.5 s under `SPEAKER_01` is read back exactly, ending at 15.840 s. */
  lemma ExampleTurnRoundTrip()
    ensures ParseLine(RttmLine(Track(Segment(12.34, 15.84), "SPEAKER_01")), ParseDecimal) ==
      Some(Track(Segment(12.34, 15.84), "SPEAKER_01"))
  {
    var t := Track(Segment(12.34, 15.84), "SPEAKER_01");
    assert IsToken("SPEAKER_01");
    assert WholeMillis(12.34) && WholeMillis(3.5);
    RttmLineRoundTrip(t);
  }

  /**
   * The RTTM text of a timeline with whitespace-free labels parses back to
   * one track per line, each close to the track it was written from, and to
   * the timeline itself when all its tracks are on the millisecond grid.
   */
  lemma RttmRoundTrip(tracks: seq<Track>)
    requires forall k :: 0 <= k < |tracks| ==> IsToken(tracks[k].speaker)
    ensures |ParseAll(WriteRttm(tracks), ParseDecimal)| == |tracks|
    ensures forall k :: 0 <= k < |tracks| ==> Close(ParseAll(WriteRttm(tracks), ParseDecimal)[k], tracks[k])
    ensures (forall k :: 0 <= k < |tracks| ==> OnGrid(tracks[k])) ==> ParseAll(WriteRttm(tracks), ParseDecimal) == tracks
  {
    var lines := WriteRttm(tracks);
    forall k | 0 <= k < |tracks|
      ensures ParseLine(lines[k], ParseDecimal).Some?
      ensures Close(ParseLine(lines[k], ParseDecimal).value, tracks[k])
      ensures OnGrid(tracks[k]) ==> ParseLine(lines[k], ParseDecimal) == Some(tracks[k])
    {
      RttmLineRoundTrip(tracks[k]);
    }
    FilterMapKeepsAll(lines, line => ParseLine(line, ParseDecimal));
  }

  /** The refined timeline's labels are display labels, which contain no whitespace. */
  lemma RefinedTokens(diarization: seq<Track>, minSegmentDuration: real)
    ensures forall k :: 0 <= k < |Refine(diarization, minSegmentDuration).refined| ==>
      IsToken(Refine(diarization, minSegmentDuration).refined[k].speaker)
  {
    var refined := Refine(diarization, minSegmentDuration).refined;
    RefinedLabels(diarization, minSegmentDuration);
    forall k | 0 <= k < |refined| ensures IsToken(refined[k].speaker) {
      assert DisplayLabelUpTo(refined[k].speaker, |SpeakerOrder(Surviving(diarization, minSegmentDuration))|);
      var n :| 1 <= n <= |SpeakerOrder(Surviving(diarization, minSegmentDuration))| && refined[k].speaker == DisplayLabel(n);
      DisplayLabelIsToken(n);
    }
  }

  /**
   * The processing of one recording once diarization is done: refine the
   * timeline with the default threshold, then build the transcript from the
   * RTTM text that refinement wrote. The numbers in that text are read by
   * `ParseDecimal`, which agrees with Python's `float` on everything
   * `RttmLine` writes. The dialog is the one the refined timeline gives
   * after its times are rounded to milliseconds, which is the refined
   * timeline itself when it is on the millisecond grid; every participant is
   * a display label.
   */
  method ProcessFile(
    diarization: seq<Track>, recognise: (int, int) -> Option<string>,
    title: string, participants: seq<string>, location: string, date: string, time: string)
    returns (transcript: Meeting)
    ensures var refined := Refine(diarization, DefaultMinSegmentDuration).refined;
      && |ParseAll(WriteRttm(refined), ParseDecimal)| == |refined|
      && (forall k :: 0 <= k < |refined| ==> Close(ParseAll(WriteRttm(refined), ParseDecimal)[k], refined[k]))
      && transcript.dialog == DialogOf(ParseAll(WriteRttm(refined), ParseDecimal), recognise)
      && ((forall k :: 0 <= k < |refined| ==> OnGrid(refined[k])) ==> transcript.dialog == DialogOf(refined, recognise))
    ensures forall p :: p in transcript.participants ==>
      DisplayLabelUpTo(p, |SpeakerOrder(Surviving(diarization, DefaultMinSegmentDuration))|)
    ensures StrictlySorted(transcript.participants)
    ensures Elems(transcript.participants) == SpeakerSet(transcript.dialog)
    ensures transcript.title == title && transcript.location == location && transcript.closingNote == ClosingNote
  {
    var refined, rttm, mapping, speakerCount := RefineDiarization(diarization, DefaultMinSegmentDuration);
    transcript := ProcessTranscript(rttm, ParseDecimal, recognise, title, participants, location, date, time);
    HandOff(diarization, recognise, transcript.dialog, transcript.participants);
  }

  /** What the transcript inherits from the refined timeline through the RTTM text. */
  lemma HandOff(diarization: seq<Track>, recognise: (int, int) -> Option<string>, dialog: seq<DialogEntry>, participants: seq<string>)
    requires dialog == DialogOf(ParseAll(WriteRttm(Refine(diarization, DefaultMinSegmentDuration).refined), ParseDecimal), recognise)
    requires Elems(participants) == SpeakerSet(dialog)
    ensures var refined := Refine(diarization, DefaultMinSegmentDuration).refined;
      && |ParseAll(WriteRttm(refined), ParseDecimal)| == |refined|
      && (forall k :: 0 <= k < |refined| ==> Close(ParseAll(WriteRttm(refined), ParseDecimal)[k], refined[k]))
      && ((forall k :: 0 <= k < |refined| ==> OnGrid(refined[k])) ==> dialog == DialogOf(refined, recognise))
    ensures forall p :: p in participants ==>
      DisplayLabelUpTo(p, |SpeakerOrder(Surviving(diarization, DefaultMinSegmentDuration))|)
  {
    var refined := Refine(diarization, DefaultMinSegmentDuration).refined;
    RefinedTokens(diarization, DefaultMinSegmentDuration);
    RttmRoundTrip(refined);
    RefinedParticipants(diarization, recognise, dialog, participants);
  }

  /** Every participant of the transcript is a display label of the refined timeline. */
  lemma RefinedParticipants(diarization: seq<Track>, recognise: (int, int) -> Option<string>, dialog: seq<DialogEntry>, participants: seq<string>)
    requires dialog == DialogOf(ParseAll(WriteRttm(Refine(diarization, DefaultMinSegmentDuration).refined), ParseDecimal), recognise)
    requires Elems(participants) == SpeakerSet(dialog)
    ensures forall p :: p in participants ==>
      DisplayLabelUpTo(p, |SpeakerOrder(Surviving(diarization, DefaultMinSegmentDuration))|)
  {
    var refined := Refine(diarization, DefaultMinSegmentDuration).refined;
    RefinedTokens(diarization, DefaultMinSegmentDuration);
    RttmRoundTrip(refined);
    RefinedLabels(diarization, DefaultMinSegmentDuration);
    ParticipantsFromTimeline(refined, ParseAll(WriteRttm(refined), ParseDecimal), recognise, participants,
      |SpeakerOrder(Surviving(diarization, DefaultMinSegmentDuration))|);
  }

  /**
   * Participants of a dialog built from a re-read timeline carry the labels
   * of the timeline that was written.
   */
  lemma ParticipantsFromTimeline(
    written: seq<Track>, reread: seq<Track>, recognise: (int, int) -> Option<string>,
    participants: seq<string>, count: nat)
    requires |reread| == |written|
    requires forall k :: 0 <= k < |written| ==> Close(reread[k], written[k])
    requires forall k :: 0 <= k < |written| ==> DisplayLabelUpTo(written[k].speaker, count)
    requires Elems(participants) == SpeakerSet(DialogOf(reread, recognise))
    ensures forall p :: p in participants ==> DisplayLabelUpTo(p, count)
  {
    forall p | p in participants
      ensures DisplayLabelUpTo(p, count)
    {
      assert p in Elems(participants);
      var dialog := DialogOf(reread, recognise);
      var e :| e in dialog && e.speaker == p;
      var i := FilterMapSource(reread, e, t => EntryFor(t, recognise));
      assert reread[i].speaker == p;
      assert written[i].speaker == p;
    }
  }

  // ------------------------------------------------------------- an example

  /** The first two display labels. */
  lemma FirstDisplayLabels()
    ensures DisplayLabel(1) == "SPEAKER_01" && DisplayLabel(2) == "SPEAKER_02"
  {
    assert Digits(1) == "1" && Digits(2) == "2";
    assert Zeros(1) == "0";
    assert ZeroPad("1", 2) == "0" + "1" == "01";
    assert ZeroPad("2", 2) == "0" + "2" == "02";
  }

  /** Two long turns of two raw labels are numbered in order of appearance. */
  lemma ExampleRefined(diarization: seq<Track>)
    requires diarization == [Track(Segment(0.0, 2.0), "A"), Track(Segment(2.0, 4.9), "B")]
    ensures Refine(diarization, DefaultMinSegmentDuration).refined ==
      [Track(Segment(0.0, 2.0), "SPEAKER_01"), Track(Segment(2.0, 4.9), "SPEAKER_02")]
  {
    FirstDisplayLabels();
    var first := diarization[..1];
    assert first != [] && |first| - 1 == 0 && first[0] == diarization[0] && first[..0] == [];
    assert Refine(first[..0], DefaultMinSegmentDuration) == Refinement([], map[], 1);
    var r := Refine(first, DefaultMinSegmentDuration);
    assert r == RefineStep(Refinement([], map[], 1), diarization[0], DefaultMinSegmentDuration);
    assert r == Refinement([Track(Segment(0.0, 2.0), "SPEAKER_01")], map["A" := "SPEAKER_01"], 2);
    assert diarization[..1] == first;
    assert Refine(diarization, DefaultMinSegmentDuration) == RefineStep(r, diarization[1], DefaultMinSegmentDuration);
  }

  /** A word with no surrounding whitespace strips to itself. */
  lemma StripWord(w: string)
    requires w != [] && Trimmed(w)
    ensures Strip(w) == w
  {
    StripAround("", w, "");
    assert "" + w + "" == w;
  }

  /** With a recogniser that hears "hello" in the first slice and "world" in the second, both turns are kept. */
  lemma ExampleDialog(recognise: (int, int) -> Option<string>)
    requires recognise(0, 2000) == Some("hello") && recognise(2000, 4900) == Some("world")
    ensures DialogOf([Track(Segment(0.0, 2.0), "SPEAKER_01"), Track(Segment(2.0, 4.9), "SPEAKER_02")], recognise) ==
      [DialogEntry("SPEAKER_01", "hello"), DialogEntry("SPEAKER_02", "world")]
  {
    var first, second := Track(Segment(0.0, 2.0), "SPEAKER_01"), Track(Segment(2.0, 4.9), "SPEAKER_02");
    ExampleBounds();
    HeardEntry(first, recognise, "hello");
    HeardEntry(second, recognise, "world");
    DialogOfTwo(first, second, recognise);
  }

  lemma ExampleBounds()
    ensures SliceBounds(Segment(0.0, 2.0)) == (0, 2000)
    ensures SliceBounds(Segment(2.0, 4.9)) == (2000, 4900)
  {
    assert Trunc(0.0) == 0 && Trunc(2000.0) == 2000 && Trunc(4900.0) == 4900;
  }

  /** A track whose slice the recogniser hears as a single word becomes an entry with that word. */
  lemma HeardEntry(t: Track, recognise: (int, int) -> Option<string>, word: string)
    requires recognise(SliceBounds(t.segment).0, SliceBounds(t.segment).1) == Some(word)
    requires word != [] && Trimmed(word)
    ensures EntryFor(t, recognise) == Some(DialogEntry(t.speaker, word))
  {
    StripWord(word);
  }

  /** The dialog of two tracks. */
  lemma DialogOfTwo(first: Track, second: Track, recognise: (int, int) -> Option<string>)
    ensures DialogOf([first, second], recognise) == Emit(EntryFor(first, recognise)) + Emit(EntryFor(second, recognise))
  {
    FilterMapPair(first, second, t => EntryFor(t, recognise));
  }

  /** The only strictly sorted list of the speakers of the example dialog. */
  lemma ExampleParticipants(participants: seq<string>)
    requires StrictlySorted(participants)
    requires Elems(participants) == SpeakerSet([DialogEntry("SPEAKER_01", "hello"), DialogEntry("SPEAKER_02", "world")])
    ensures participants == ["SPEAKER_01", "SPEAKER_02"]
  {
    ExampleSpeakers();
    ExampleOrder();
    var expected := ["SPEAKER_01", "SPEAKER_02"];
    assert Elems(expected) == {"SPEAKER_01", "SPEAKER_02"};
    SortedUnique(participants, expected);
  }

  lemma ExampleOrder()
    ensures StrictlySorted(["SPEAKER_01", "SPEAKER_02"])
  {
    var labels := ["SPEAKER_01", "SPEAKER_02"];
    BelowCommonPrefix("SPEAKER_0", "1", "2");
    assert "SPEAKER_0" + "1" == labels[0];
    assert "SPEAKER_0" + "2" == labels[1];
    forall i, j | 0 <= i < j < |labels|
      ensures Below(labels[i], labels[j])
    {
      assert i == 0 && j == 1;
    }
  }

  lemma ExampleSpeakers()
    ensures SpeakerSet([DialogEntry("SPEAKER_01", "hello"), DialogEntry("SPEAKER_02", "world")]) == {"SPEAKER_01", "SPEAKER_02"}
  {
    var dialog := [DialogEntry("SPEAKER_01", "hello"), DialogEntry("SPEAKER_02", "world")];
    assert dialog[0] in dialog && dialog[1] in dialog;
    assert forall e :: e in dialog ==> e == dialog[0] || e == dialog[1];
  }

  /**
   * A recording with two turns, 0.0-2.0 s for raw label A and 2.0-4.9 s for
   * raw label B, both above the threshold, and a recogniser that returns
   * "hello" and "world" for them, gives a two-entry dialog and two
   * participants.
   */
  method TwoSpeakerMeeting() returns (transcript: Meeting)
    ensures transcript.dialog == [DialogEntry("SPEAKER_01", "hello"), DialogEntry("SPEAKER_02", "world")]
    ensures transcript.participants == ["SPEAKER_01", "SPEAKER_02"]
  {
    var diarization := [Track(Segment(0.0, 2.0), "A"), Track(Segment(2.0, 4.9), "B")];
    var recognise := (startMs: int, endMs: int) => if startMs == 0 then Some("hello") else Some("world");
    transcript := ProcessFile(diarization, recognise, "Meeting", [], DefaultLocation, "", "");
    ExampleRefined(diarization);
    ExampleOutcome(Refine(diarization, DefaultMinSegmentDuration).refined, recognise,
      transcript.dialog, transcript.participants);
  }

  /** What the transcript of the example timeline must hold, given what `ProcessFile` promises. */
  lemma ExampleOutcome(
    refined: seq<Track>, recognise: (int, int) -> Option<string>,
    dialog: seq<DialogEntry>, participants: seq<string>)
    requires refined == [Track(Segment(0.0, 2.0), "SPEAKER_01"), Track(Segment(2.0, 4.9), "SPEAKER_02")]
    requires recognise(0, 2000) == Some("hello") && recognise(2000, 4900) == Some("world")
    requires (forall k :: 0 <= k < |refined| ==> OnGrid(refined[k])) ==> dialog == DialogOf(refined, recognise)
    requires StrictlySorted(participants) && Elems(participants) == SpeakerSet(dialog)
    ensures dialog == [DialogEntry("SPEAKER_01", "hello"), DialogEntry("SPEAKER_02", "world")]
    ensures participants == ["SPEAKER_01", "SPEAKER_02"]
  {
    assert WholeMillis(0.0) && WholeMillis(2.0) && WholeMillis(2.9);
    assert OnGrid(refined[0]) && OnGrid(refined[1]);
    ExampleDialog(recognise);
    ExampleParticipants(participants);
  }
}
