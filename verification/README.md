# Speaker-diarization post-processing

This project models the post-processing that turns a speaker-diarization
timeline of a meeting recording into a transcript document:

- `refine_diarization` walks the raw timeline of (segment, raw label) tracks
  in order. It drops every track shorter than `min_segment_duration`
  (0.5 s by default) and renames the raw labels of the surviving tracks to
  `SPEAKER_01`, `SPEAKER_02`, ... in order of first appearance. It then
  writes the refined timeline as RTTM text.
- `parse_rttm` reads RTTM text back into a timeline. It keeps a line when
  its stripped, whitespace-split form has at least 9 fields and the first is
  `SPEAKER`, and when fields 3 and 4 read as numbers. The segment is
  `[onset, onset + duration]` and the label is field 7. Every other line is
  skipped.
- `preprocess_audio_segment` cuts the slice `[int(start*1000), int(end*1000))`
  in milliseconds, transcribes it and strips the text. Any failure gives `""`.
- `process_transcript` transcribes every parsed track in order. It keeps an
  entry `{Speaker, Statement}` for each non-empty statement and lists as
  participants the sorted distinct speakers of those entries.

Times are exact reals. Python's `int()` on a number is truncation toward
zero (`Transcript.Trunc`). Python's `str.strip` and `str.split` are modelled
on Python's whitespace characters (module `Text`). `sorted(set)` is a method
that inserts each speaker into a strictly sorted list (module `Ordering`).
`f"{n:02d}"` and `f"{x:.3f}"` are written out over decimal digits (module
`Decimal`).

The number parser of `parse_rttm` (Python's `float`) and the transcriber
(audio loading, slicing, Whisper) are function parameters:

- `parseNumber: string -> Option<real>`, where `None` means `float` raised.
- `recognise: (int, int) -> Option<string>`, from millisecond bounds to the
  recognised text, where `None` means any step raised.

`Decimal.ParseDecimal` is a concrete reader of plain decimal literals. It is
used where the two stages are joined (module `Pipeline`).

The RTTM writer is `Annotation.write_rttm` of pyannote.core, which is not
part of this model. Its line format is assumed to be
`SPEAKER <NA> 1 {onset:.3f} {duration:.3f} <NA> <NA> {label} <NA> <NA>`, one
line per track (`IdentifySpeakers.RttmLine`). The numbers are written the way
Python's `.3f` formatting writes them: the magnitude is rounded to the nearest
millisecond, an exact tie goes to the even digit, and a minus sign comes in
front of a negative value. Every round-trip result rests on that
assumption.

## Model

| member | source | states |
|---|---|---|
| IdentifySpeakers.RefineDiarization | identify_speakers.py:42-68 | The loop yields one refined track per surviving track, in order, with its segment unchanged and its raw label replaced through the mapping; every refined track lasts at least the threshold; the mapping numbers the surviving labels from 1 in order of first appearance, knows no other label and is injective; the counter ends at the number of labels plus one; the RTTM text is the refined timeline written line by line |
| IdentifySpeakers.RefineProperties | identify_speakers.py:47-60 | The same final-state facts, stated of the loop's specification function `Refine` for every input |
| IdentifySpeakers.RefineNumbering | identify_speakers.py:49-57 | After every prefix of the walk, the mapping gives the j-th new surviving label `SPEAKER_{j+1:02d}` and the counter is one more than the number of labels seen, so it advances only on a new label |
| IdentifySpeakers.RefineRelabels | identify_speakers.py:51-60 | After every prefix of the walk, the refined timeline is the surviving tracks in their order, each with its own segment and with its label mapped |
| IdentifySpeakers.SurvivingTracks | identify_speakers.py:51-53 | The surviving tracks are exactly the input tracks of at least the minimum duration, unchanged and in their input order: a filter, not a merge |
| IdentifySpeakers.SpeakerOrderFirst | identify_speakers.py:55-57 | The first surviving track's raw label is the first label numbered, so it becomes `SPEAKER_01` |
| IdentifySpeakers.NumberingInjective | identify_speakers.py:55-59 | A numbering of distinct labels in order is injective and has one entry per label |
| IdentifySpeakers.ShortOnlyLabelUnnumbered | identify_speakers.py:52-57 | A raw label that occurs only on short tracks is never numbered and so uses no counter value |
| IdentifySpeakers.RefineAllShort | identify_speakers.py:47-60 | With no track of the minimum duration, and in particular with no track, the refined timeline and the mapping are empty and the counter stays at 1 |
| IdentifySpeakers.DisplayLabelDecodes | identify_speakers.py:56 | A display label is `SPEAKER_` followed by at least two digits that read back as the counter |
| IdentifySpeakers.DisplayLabelInjective | identify_speakers.py:56 | Distinct counters give distinct display labels |
| IdentifySpeakers.DisplayLabelIsToken | identify_speakers.py:56 | A display label contains no whitespace, so it is one RTTM field |
| IdentifySpeakers.RefinedLabels | identify_speakers.py:55-60 | Every refined track is labelled `SPEAKER_{n:02d}` for some n between 1 and the number of distinct surviving labels |
| IdentifySpeakers.WriteRttm | identify_speakers.py:63-65 | The RTTM text has one line per refined track |
| Transcript.ParseRttm | transcript.py:13-39 | The loop returns the tracks of the accepted lines, in line order, and no more tracks than lines |
| Transcript.ParsedTracks | transcript.py:22-34 | Each parsed track comes from exactly one accepted line, in strictly increasing line order; every accepted line gives its track; every label is a whitespace-free field |
| Transcript.ParsedLabel | transcript.py:23-34 | The label of an accepted line contains no whitespace |
| Transcript.ParseFields | transcript.py:23-34 | A `SPEAKER` line of at least 9 fields gives the segment `[f3, f3 + f4]` under label f7 when both numbers read, and nothing otherwise; field 8 and later fields are ignored |
| Transcript.ParseRejects | transcript.py:24-26 | A line with fewer than 9 fields, or whose first field is not `SPEAKER`, gives no track |
| Transcript.ParseSkips | transcript.py:35-37 | A rejected line drops out without disturbing the lines before and after it |
| Transcript.Trunc | transcript.py:51-52 | `int(x)` on a number truncates toward zero: the result is within one of x, on x's side of zero |
| Transcript.TruncMonotone | transcript.py:51-52 | Truncation keeps order |
| Transcript.SliceBoundsAgree | transcript.py:51-52 | Both slice bounds lie within one millisecond of the segment's ends, and are in order when the segment is |
| Transcript.SliceBoundsWhole | transcript.py:51-52 | A segment whose ends are whole milliseconds is sliced exactly at those milliseconds |
| Transcript.SegmentStatement | transcript.py:41-74 | The statement is free of surrounding whitespace; it is empty when transcription fails; otherwise it is the recognised text with only whitespace removed from its ends |
| Transcript.DialogEntries | transcript.py:85-89 | Each dialog entry comes from one track, in track order, with that track's speaker and its non-empty stripped statement; every track with a non-empty statement has an entry |
| Transcript.DialogSpeakers | transcript.py:84-89 | A speaker is in the dialog exactly when one of its tracks has a non-empty statement; a speaker with only empty statements is absent |
| Transcript.Transcribe | transcript.py:83-89 | The loop builds exactly the dialog of the parsed tracks and the set of its speakers |
| Transcript.ProcessTranscript | transcript.py:76-104 | The document's dialog is the dialog of the parsed RTTM text; its participants are strictly sorted and are exactly the dialog's speakers, whatever participants the caller passed; title, location, date and time are the given ones; the closing note is fixed |
| Ordering.SortedList | transcript.py:92 | `sorted(speakers)` is strictly sorted and holds exactly the speakers |
| Ordering.SortedUnique | transcript.py:92 | Two strictly sorted lists with the same elements are equal, so the participants are determined by the dialog alone |
| Ordering.Insert | transcript.py:92 | Inserting into a strictly sorted list keeps it strictly sorted and adds exactly the new element |
| Text.Strip | transcript.py:23 | `strip()` leaves a slice of its input with no whitespace at either end and only whitespace around it |
| Text.SplitLine | transcript.py:23 | A line of whitespace-free fields joined by single spaces and ended by whitespace strips and splits back into those fields |
| Text.SplitTokens | transcript.py:23 | Every field of `split()` is non-empty and free of whitespace |
| Decimal.DigitsValue | identify_speakers.py:56 | The decimal digits of a counter read back as that counter |
| Decimal.ZeroPadValue | identify_speakers.py:56 | Zero-padding digits does not change their value |
| Decimal.Fixed3RoundTrip | transcript.py:31-32 | A time written with three decimals reads back as a number within half a millisecond of it, and as itself when it is a whole number of milliseconds |
| Decimal.TiesToEven | identify_speakers.py:64 | A time exactly half a millisecond between two counts is written with the even count, as Python's `.3f` does: 0.0625 s as 0.062, -0.0625 s with magnitude 62, 0.0635 s as 0.064 |
| Decimal.ParseMillis | transcript.py:31-32 | A signed whole number of milliseconds written with three decimals reads back exactly |
| Pipeline.RttmLineRoundTrip | transcript.py:22-34 | A written line whose label has no whitespace is accepted and gives back its track within half a millisecond, and exactly when the track is on the millisecond grid |
| Pipeline.RttmRoundTrip | transcript.py:22-34 | The written RTTM text of a timeline parses back to one close track per line, and to the timeline itself when it is on the millisecond grid |
| Pipeline.ExampleTurnRoundTrip | transcript.py:22-34 | A turn at 12.340 s lasting 3.5 s under `SPEAKER_01` is read back exactly, ending at 15.840 s |
| Pipeline.RefinedTokens | identify_speakers.py:55-60 | Every label of the refined timeline is whitespace-free, so it survives the RTTM text |
| Pipeline.ProcessFile | main.py:74-78 | Refinement then transcript: the dialog is that of the refined timeline read back, which is the refined timeline itself on the millisecond grid; every participant is a display label of a surviving speaker; participants are strictly sorted and are exactly the dialog's speakers |
| Pipeline.TwoSpeakerMeeting | main.py:74-78 | Two long turns of raw labels A and B, heard as "hello" and "world", give the dialog SPEAKER_01: hello, SPEAKER_02: world and the participants SPEAKER_01, SPEAKER_02 |

## Left out

- The pyannote `Annotation` is modelled as an ordered sequence of tracks. Its own ordering of tracks, its handling of a repeated segment and its treatment of empty segments are library behaviour outside this model.
- `Annotation.write_rttm` is not part of this model. Its line format is assumed as described above, including the `<NA>` file id and the `.3f` template of its numbers.
- The RTTM `StringIO` buffer is modelled as its list of lines. Writing the lines into one buffer and splitting it back at `"\n"` in `for line in rttm_buffer` are not modelled. Passing the written lines straight to the parser is the same thing only because each written line holds exactly one `"\n"`, at its end: its labels and number fields contain no whitespace (`Pipeline.RefinedTokens`, `Decimal.Fixed3IsToken`).
- Floating point: times are exact reals, so the 0.5 s threshold, `start + duration` and `x * 1000` have no rounding error.
- Decimal.ParseDecimal: reads only optionally signed plain decimal literals, a narrower language than Python's `float` (no exponents, `inf`, `nan`, underscores or surrounding whitespace). It covers everything the assumed writer produces; `parse_rttm` itself takes any number parser.
- Audio loading, slicing, WAV export, numpy normalisation and Whisper are the `recognise` parameter. The `language` argument is passed through to Whisper and so is not modelled.
- `datetime.now()` is not modelled: the date and time strings are parameters.
- Writing the document as JSON to `transcript_path`, logging, and the `try`/`except` around `process_transcript` are I/O and are not modelled.
- `initialize_pipeline`, `preprocess_audio`, and the diarization pipeline call are foreign code. The raw timeline is a parameter.
- The batch driver, per-file logging, thread pool and cleanup of `main.py`, the browser bots, the GUIs and the transcript-to-JSON prompt call are I/O and concurrency and are not modelled.
- IdentifySpeakers.RefineDiarization: also returns the mapping and the counter, which are locals of `refine_diarization`, so that their final state can be stated.
- Transcript.SliceBoundsAgree: slice bounds truncate toward zero, as the code does with `int(x * 1000)`, rather than round to the nearest millisecond.
- The docstring of `refine_diarization` speaks of merging short segments. The code only drops them, and the model follows the code.
