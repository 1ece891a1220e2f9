/**
 * Diarization refinement: drop the tracks that are too short and rename the
 * raw speaker labels to SPEAKER_01, SPEAKER_02, ... in order of first
 * appearance; then write the refined timeline as RTTM lines.
 */
module IdentifySpeakers {
  import opened Wrappers
  import opened Seqs
  import opened Text
  import opened Decimal
  import opened Timeline

  /** The default of `min_segment_duration`, in seconds. */
  const DefaultMinSegmentDuration: real := 0.5

  /** `f"SPEAKER_{n:02d}"`. */
  function DisplayLabel(n: nat): (name: string)
  {
    "SPEAKER_" + ZeroPad(Digits(n), 2)
  }

  /**
   * A display label is `SPEAKER_` followed by at least two digits that read
   * back as the counter; in particular distinct counters give distinct labels.
   */
  lemma DisplayLabelDecodes(n: nat)
    ensures |DisplayLabel(n)| >= 10 && DisplayLabel(n)[..8] == "SPEAKER_"
    ensures AllDigits(DisplayLabel(n)[8..]) && Value(DisplayLabel(n)[8..]) == n
  {
    var digits := ZeroPad(Digits(n), 2);
    assert DisplayLabel(n)[8..] == digits;
    DigitsValue(n);
    ZeroPadValue(Digits(n), 2);
  }

  lemma DisplayLabelInjective(m: nat, n: nat)
    requires DisplayLabel(m) == DisplayLabel(n)
    ensures m == n
  {
    DisplayLabelDecodes(m);
    DisplayLabelDecodes(n);
  }

  /** A display label is one RTTM field: it contains no whitespace. */
  lemma DisplayLabelIsToken(n: nat)
    ensures IsToken(DisplayLabel(n))
  {
    var name := DisplayLabel(n);
    DisplayLabelDecodes(n);
    var digits := name[8..];
    PrefixIsToken();
    DigitsAreToken(digits);
    TokenConcat("SPEAKER_", digits);
    assert name == name[..8] + digits;
  }

  lemma PrefixIsToken()
    ensures IsToken("SPEAKER_")
  {
  }

  /** The track kept as it is when its duration reaches the threshold, dropped otherwise. */
  function KeepLong(minSegmentDuration: real, t: Track): Option<Track>
  {
    if t.segment.Duration() < minSegmentDuration then None else Some(t)
  }

  /** The tracks that survive the duration filter, in their original order. */
  function Surviving(diarization: seq<Track>, minSegmentDuration: real): seq<Track>
  {
    FilterMap(diarization, t => KeepLong(minSegmentDuration, t))
  }

  /**
   * The surviving tracks are exactly the tracks of at least the minimum
   * duration, unchanged and in their original relative order: a filter, not a merge.
   */
  lemma SurvivingTracks(diarization: seq<Track>, minSegmentDuration: real) returns (idx: seq<nat>)
    ensures |idx| == |Surviving(diarization, minSegmentDuration)|
    ensures forall k :: 0 <= k < |idx| ==>
      idx[k] < |diarization| && Surviving(diarization, minSegmentDuration)[k] == diarization[idx[k]]
    ensures forall k :: 0 <= k < |idx| ==> diarization[idx[k]].segment.Duration() >= minSegmentDuration
    ensures forall k, l :: 0 <= k < l < |idx| ==> idx[k] < idx[l]
    ensures forall i :: 0 <= i < |diarization| && diarization[i].segment.Duration() >= minSegmentDuration ==> i in idx
  {
    idx := FilterMapOrigins(diarization, t => KeepLong(minSegmentDuration, t));
  }

  /** The labels of the tracks, each once, in order of first appearance. */
  function SpeakerOrder(tracks: seq<Track>): (order: seq<string>)
    ensures NoDup(order)
    ensures Elems(order) == LabelSet(tracks)
  {
    if tracks == [] then []
    else
      var n := |tracks| - 1;
      var before := SpeakerOrder(tracks[..n]);
      assert LabelSet(tracks) == LabelSet(tracks[..n]) + {tracks[n].speaker} by {
        assert tracks == tracks[..n] + [tracks[n]];
      }
      if tracks[n].speaker in before then before else before + [tracks[n].speaker]
  }

  /** The first track's label comes first. */
  lemma {:induction false} SpeakerOrderFirst(tracks: seq<Track>)
    requires tracks != []
    ensures SpeakerOrder(tracks) != [] && SpeakerOrder(tracks)[0] == tracks[0].speaker
  {
    var n := |tracks| - 1;
    if n > 0 {
      SpeakerOrderFirst(tracks[..n]);
    }
  }

  /** A raw label that occurs only on short tracks is never numbered. */
  lemma ShortOnlyLabelUnnumbered(diarization: seq<Track>, minSegmentDuration: real, raw: string)
    requires forall i :: 0 <= i < |diarization| && diarization[i].speaker == raw ==>
      diarization[i].segment.Duration() < minSegmentDuration
    ensures raw !in SpeakerOrder(Surviving(diarization, minSegmentDuration))
  {
    var surv := Surviving(diarization, minSegmentDuration);
    var idx := SurvivingTracks(diarization, minSegmentDuration);
    assert raw !in LabelSet(surv) by {
      forall k | 0 <= k < |surv| ensures surv[k].speaker != raw {
        assert surv[k] == diarization[idx[k]];
      }
    }
  }

  /** Distinct raw labels have distinct display labels. */
  ghost predicate Injective(mapping: map<string, string>)
  {
    forall a, b :: a in mapping && b in mapping && a != b ==> mapping[a] != mapping[b]
  }

  /** `mapping` numbers the labels of `order` from 1 upwards, and knows no other label. */
  ghost predicate NumbersInOrder(mapping: map<string, string>, order: seq<string>)
  {
    NumberedBy(mapping, order, DisplayLabel)
  }

  /** `mapping` gives the j-th label of `order` the name `name(j + 1)`, and knows no other label. */
  ghost predicate NumberedBy(mapping: map<string, string>, order: seq<string>, name: nat -> string)
  {
    && mapping.Keys == Elems(order)
    && forall j :: 0 <= j < |order| ==> mapping[order[j]] == name(j + 1)
  }

  /** Numbering distinct labels in order is injective and has one entry per label. */
  lemma NumberingInjective(mapping: map<string, string>, order: seq<string>)
    requires NoDup(order) && NumbersInOrder(mapping, order)
    ensures Injective(mapping)
    ensures |mapping| == |order|
  {
    forall a, b | a in mapping && b in mapping && a != b ensures mapping[a] != mapping[b] {
      var i :| 0 <= i < |order| && order[i] == a;
      var j :| 0 <= j < |order| && order[j] == b;
      if mapping[a] == mapping[b] {
        DisplayLabelInjective(i + 1, j + 1);
      }
    }
    NoDupCard(order);
    assert |mapping| == |mapping.Keys|;
  }

  /** One more track in the walk: it is kept exactly when it is long enough. */
  lemma SurvivingStep(diarization: seq<Track>, i: nat, minSegmentDuration: real)
    requires i < |diarization|
    ensures Surviving(diarization[..i + 1], minSegmentDuration) ==
      Surviving(diarization[..i], minSegmentDuration) +
      (if diarization[i].segment.Duration() < minSegmentDuration then [] else [diarization[i]])
  {
    FilterMapStep(diarization, i, t => KeepLong(minSegmentDuration, t));
  }

  /** One more surviving track: its label is appended to the order if it is new. */
  lemma SpeakerOrderStep(tracks: seq<Track>, t: Track)
    ensures SpeakerOrder(tracks + [t]) ==
      if t.speaker in SpeakerOrder(tracks) then SpeakerOrder(tracks) else SpeakerOrder(tracks) + [t.speaker]
  {
    assert (tracks + [t])[..|tracks|] == tracks;
  }

  /** Numbering a new label with the next counter value keeps the numbering in order. */
  lemma NumberNext(mapping: map<string, string>, order: seq<string>, raw: string, name: nat -> string)
    requires NumberedBy(mapping, order, name) && raw !in mapping
    ensures NumberedBy(mapping[raw := name(|order| + 1)], order + [raw], name)
  {
    var m' := mapping[raw := name(|order| + 1)];
    var o' := order + [raw];
    assert Elems(o') == Elems(order) + {raw};
    forall j | 0 <= j < |o'| ensures m'[o'[j]] == name(j + 1) {
      if j < |order| {
        assert o'[j] == order[j] != raw;
      }
    }
  }

  /** The local state of `refine_diarization` between two tracks. */
  datatype Refinement = Refinement(refined: seq<Track>, mapping: map<string, string>, speakerCount: nat)

  /** One iteration of the loop of `refine_diarization`. */
  function RefineStep(r: Refinement, t: Track, minSegmentDuration: real): Refinement
  {
    if t.segment.Duration() < minSegmentDuration then r
    else
      var r' := if t.speaker in r.mapping then r
                else Refinement(r.refined, r.mapping[t.speaker := DisplayLabel(r.speakerCount)], r.speakerCount + 1);
      Refinement(r'.refined + [Track(t.segment, r'.mapping[t.speaker])], r'.mapping, r'.speakerCount)
  }

  /** The state after the loop has seen all of `diarization`, starting from an empty timeline, an empty mapping and counter 1. */
  function Refine(diarization: seq<Track>, minSegmentDuration: real): Refinement
  {
    if diarization == [] then Refinement([], map[], 1)
    else
      var n := |diarization| - 1;
      RefineStep(Refine(diarization[..n], minSegmentDuration), diarization[n], minSegmentDuration)
  }

  /**
   * After any prefix of the walk, the mapping numbers the labels of the
   * surviving tracks from 1 in order of first appearance, and the counter is
   * one more than the number of labels seen.
   */
  lemma {:induction false} RefineNumbering(diarization: seq<Track>, minSegmentDuration: real)
    ensures NumbersInOrder(Refine(diarization, minSegmentDuration).mapping, SpeakerOrder(Surviving(diarization, minSegmentDuration)))
    ensures Refine(diarization, minSegmentDuration).speakerCount == |SpeakerOrder(Surviving(diarization, minSegmentDuration))| + 1
  {
    if diarization != [] {
      var n := |diarization| - 1;
      var t := diarization[n];
      RefineNumbering(diarization[..n], minSegmentDuration);
      SurvivingStep(diarization, n, minSegmentDuration);
      assert diarization[..n + 1] == diarization;
      var before := Surviving(diarization[..n], minSegmentDuration);
      var r := Refine(diarization[..n], minSegmentDuration);
      assert Refine(diarization, minSegmentDuration) == RefineStep(r, t, minSegmentDuration);
      if t.segment.Duration() >= minSegmentDuration {
        assert Surviving(diarization, minSegmentDuration) == before + [t];
        SpeakerOrderStep(before, t);
        NumberingStep(r, SpeakerOrder(before), t, minSegmentDuration);
      } else {
        assert Surviving(diarization, minSegmentDuration) == before;
        assert Refine(diarization, minSegmentDuration) == r;
      }
    }
  }

  /** A kept track either reuses its label's number or takes the next one. */
  lemma NumberingStep(r: Refinement, order: seq<string>, t: Track, minSegmentDuration: real)
    requires NumbersInOrder(r.mapping, order) && r.speakerCount == |order| + 1
    requires t.segment.Duration() >= minSegmentDuration
    ensures var order' := if t.speaker in order then order else order + [t.speaker];
      NumbersInOrder(RefineStep(r, t, minSegmentDuration).mapping, order') &&
      RefineStep(r, t, minSegmentDuration).speakerCount == |order'| + 1
  {
    if t.speaker !in order {
      NumberNext(r.mapping, order, t.speaker, DisplayLabel);
    }
  }

  /**
   * After any prefix of the walk, the refined timeline holds the surviving
   * tracks, in order, with their segments unchanged and their raw labels
   * replaced through the mapping.
   */
  lemma {:induction false} RefineRelabels(diarization: seq<Track>, minSegmentDuration: real)
    ensures |Refine(diarization, minSegmentDuration).refined| == |Surviving(diarization, minSegmentDuration)|
    ensures forall k :: 0 <= k < |Surviving(diarization, minSegmentDuration)| ==>
      Relabelled(Surviving(diarization, minSegmentDuration)[k], Refine(diarization, minSegmentDuration).refined[k],
                 Refine(diarization, minSegmentDuration).mapping)
  {
    if diarization != [] {
      var n := |diarization| - 1;
      var t := diarization[n];
      RefineRelabels(diarization[..n], minSegmentDuration);
      SurvivingStep(diarization, n, minSegmentDuration);
      assert diarization[..n + 1] == diarization;
      var before := Surviving(diarization[..n], minSegmentDuration);
      var r := Refine(diarization[..n], minSegmentDuration);
      var r' := Refine(diarization, minSegmentDuration);
      assert r.mapping.Keys <= r'.mapping.Keys;
      assert forall x :: x in r.mapping ==> r'.mapping[x] == r.mapping[x];
    }
  }

  /** `out` is `raw` with its segment kept and its label replaced through `mapping`. */
  ghost predicate Relabelled(raw: Track, out: Track, mapping: map<string, string>)
  {
    out.segment == raw.segment && raw.speaker in mapping && out.speaker == mapping[raw.speaker]
  }

  /**
   * `refine_diarization`: walks the tracks in order, skips those shorter than
   * `minSegmentDuration`, numbers each new raw label with the next counter
   * value, and keeps the track's segment under its display label. Besides the
   * refined timeline and its RTTM text, the mapping and the counter are
   * returned so that their final state can be stated.
   */
  method RefineDiarization(diarization: seq<Track>, minSegmentDuration: real)
    returns (refined: seq<Track>, rttm: seq<string>, mapping: map<string, string>, speakerCount: nat)
    ensures |refined| == |Surviving(diarization, minSegmentDuration)|
    ensures forall k :: 0 <= k < |refined| ==>
      Relabelled(Surviving(diarization, minSegmentDuration)[k], refined[k], mapping)
    ensures forall k :: 0 <= k < |refined| ==> refined[k].segment.Duration() >= minSegmentDuration
    ensures NumbersInOrder(mapping, SpeakerOrder(Surviving(diarization, minSegmentDuration)))
    ensures mapping.Keys == LabelSet(Surviving(diarization, minSegmentDuration))
    ensures Injective(mapping)
    ensures speakerCount == |mapping| + 1
    ensures Refinement(refined, mapping, speakerCount) == Refine(diarization, minSegmentDuration)
    ensures rttm == WriteRttm(refined)
  {
    refined, mapping, speakerCount := [], map[], 1;
    var i := 0;
    while i < |diarization|
      invariant 0 <= i <= |diarization|
      invariant Refinement(refined, mapping, speakerCount) == Refine(diarization[..i], minSegmentDuration)
    {
      var track := diarization[i];
      RefinePrefixStep(diarization, i, minSegmentDuration);
      if track.segment.Duration() < minSegmentDuration {
        i := i + 1;
        continue;
      }
      if track.speaker !in mapping {
        mapping := mapping[track.speaker := DisplayLabel(speakerCount)];
        speakerCount := speakerCount + 1;
      }
      refined := refined + [Track(track.segment, mapping[track.speaker])];
      i := i + 1;
    }
    assert diarization[..i] == diarization;
    RefineProperties(diarization, minSegmentDuration);
    rttm := WriteRttm(refined);
  }

  /** One more track of the walk. */
  lemma RefinePrefixStep(diarization: seq<Track>, i: nat, minSegmentDuration: real)
    requires i < |diarization|
    ensures Refine(diarization[..i + 1], minSegmentDuration) ==
      RefineStep(Refine(diarization[..i], minSegmentDuration), diarization[i], minSegmentDuration)
  {
    assert diarization[..i + 1][..i] == diarization[..i];
  }

  /**
   * The final state of the walk: the refined tracks are the surviving tracks
   * relabelled through the mapping, each at least the minimum duration; the
   * mapping numbers the surviving labels in order of first appearance, is
   * injective and knows no other label; the counter is one more than the
   * number of labels.
   */
  lemma RefineProperties(diarization: seq<Track>, minSegmentDuration: real)
    ensures var r := Refine(diarization, minSegmentDuration);
      var surviving := Surviving(diarization, minSegmentDuration);
      && |r.refined| == |surviving|
      && (forall k :: 0 <= k < |r.refined| ==> Relabelled(surviving[k], r.refined[k], r.mapping))
      && (forall k :: 0 <= k < |r.refined| ==> r.refined[k].segment.Duration() >= minSegmentDuration)
      && NumbersInOrder(r.mapping, SpeakerOrder(surviving))
      && r.mapping.Keys == LabelSet(surviving)
      && Injective(r.mapping)
      && r.speakerCount == |r.mapping| + 1
  {
    var r := Refine(diarization, minSegmentDuration);
    RefineNumbering(diarization, minSegmentDuration);
    RefineRelabels(diarization, minSegmentDuration);
    var surviving := Surviving(diarization, minSegmentDuration);
    var idx := SurvivingTracks(diarization, minSegmentDuration);
    forall k | 0 <= k < |r.refined| ensures r.refined[k].segment.Duration() >= minSegmentDuration {
      assert surviving[k] == diarization[idx[k]];
    }
    NumberingInjective(r.mapping, SpeakerOrder(surviving));
  }

  /** Without a track of the minimum duration (in particular, without any track) nothing is kept or numbered. */
  lemma RefineAllShort(diarization: seq<Track>, minSegmentDuration: real)
    requires forall i :: 0 <= i < |diarization| ==> diarization[i].segment.Duration() < minSegmentDuration
    ensures Refine(diarization, minSegmentDuration) == Refinement([], map[], 1)
  {
    FilterMapNone(diarization, t => KeepLong(minSegmentDuration, t));
    assert Surviving(diarization, minSegmentDuration) == [];
    RefineRelabels(diarization, minSegmentDuration);
    RefineNumbering(diarization, minSegmentDuration);
    var r := Refine(diarization, minSegmentDuration);
    assert r.mapping.Keys == {};
  }

  /** `name` is one of the display labels for the counters 1 to `count`. */
  ghost predicate DisplayLabelUpTo(name: string, count: nat)
  {
    exists n :: 1 <= n <= count && name == DisplayLabel(n)
  }

  /** A label the numbering knows is named by a counter between 1 and the number of labels. */
  lemma NumberedName(mapping: map<string, string>, order: seq<string>, name: nat -> string, raw: string)
    requires NumberedBy(mapping, order, name) && raw in mapping
    ensures exists n :: 1 <= n <= |order| && mapping[raw] == name(n)
  {
    assert raw in Elems(order);
    var j :| 0 <= j < |order| && order[j] == raw;
    assert mapping[raw] == name(j + 1);
  }

  /**
   * Every refined track carries a display label whose counter lies between 1
   * and the number of distinct surviving speakers.
   */
  lemma RefinedLabels(diarization: seq<Track>, minSegmentDuration: real)
    ensures forall k :: 0 <= k < |Refine(diarization, minSegmentDuration).refined| ==>
      DisplayLabelUpTo(Refine(diarization, minSegmentDuration).refined[k].speaker,
        |SpeakerOrder(Surviving(diarization, minSegmentDuration))|)
  {
    var r := Refine(diarization, minSegmentDuration);
    var surv := Surviving(diarization, minSegmentDuration);
    var order := SpeakerOrder(surv);
    RefineRelabels(diarization, minSegmentDuration);
    RefineNumbering(diarization, minSegmentDuration);
    forall k | 0 <= k < |r.refined|
      ensures DisplayLabelUpTo(r.refined[k].speaker, |order|)
    {
      var raw := surv[k].speaker;
      assert raw in r.mapping && r.refined[k].speaker == r.mapping[raw];
      NumberedName(r.mapping, order, DisplayLabel, raw);
    }
  }

  /**
   * One line of `Annotation.write_rttm` (pyannote.core, not part of this
   * model; its format is assumed here): the file id of an annotation without
   * a uri is `<NA>`, the channel is 1, onset and duration are written with
   * three decimals, and every other field is `<NA>`.
   */
  function RttmRecord(onset: string, duration: string, speaker: string): seq<string>
  {
    ["SPEAKER", "<NA>", "1", onset, duration, "<NA>", "<NA>", speaker, "<NA>", "<NA>"]
  }

  /** The line written for one track: its fields separated by single spaces, then a newline. */
  function RttmLine(t: Track): string
  {
    Join(RttmRecord(Fixed3(t.segment.start), Fixed3(t.segment.Duration()), t.speaker)) + "\n"
  }

  /** The RTTM text of a timeline, one line per track in timeline order. */
  function WriteRttm(tracks: seq<Track>): (lines: seq<string>)
    ensures |lines| == |tracks|
  {
    seq(|tracks|, k requires 0 <= k < |tracks| => RttmLine(tracks[k]))
  }
}
