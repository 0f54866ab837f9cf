/**
 * The speaker-segment builder of `transcribe_with_diarization`: the words of
 * the recognition results are walked in order and consecutive words of one
 * speaker are collected into segments. The recognition response is the input;
 * word offsets are whole microseconds.
 */
module Diarization {
  import opened Wrappers
  import opened Decimal
  import opened Timestamp

  /** A recognised word: its text, its start and end offsets, and its speaker tag. */
  datatype Word = Word(text: string, startTime: nat, endTime: nat, speakerTag: int)

  /** A segment before formatting: the speaker tag, the two offsets and the collected texts. */
  datatype Segment = Segment(speaker: int, startTime: nat, endTime: nat, words: seq<string>)

  /** A segment as the builder returns it: the dictionary of four strings. */
  datatype SegmentRecord = SegmentRecord(speaker: string, startTime: string, endTime: string, text: string)

  /**
   * The loop variables: `current_speaker`, `segment_start`, `current_text`,
   * and the segments emitted so far. `segment_start` is only read once a
   * speaker is set, so its initial `None` is represented by `0`.
   */
  datatype State = State(current: Option<int>, start: nat, text: seq<string>, out: seq<Segment>)

  function Init(): State {
    State(None, 0, [], [])
  }

  /**
   * The body of the loop over words: a new speaker tag closes the open
   * segment at the new word's start and opens one with the word; the same
   * tag appends the word's text.
   */
  function Step(s: State, w: Word): (t: State)
    ensures t.current == Some(w.speakerTag) && t.text != [] && t.text[|t.text| - 1] == w.text
    ensures s.out <= t.out
    ensures |t.out| == if s.current.Some? && s.current != t.current then |s.out| + 1 else |s.out|
  {
    if Some(w.speakerTag) != s.current then
      var out := if s.current.Some? then s.out + [Segment(s.current.value, s.start, w.startTime, s.text)] else s.out;
      State(Some(w.speakerTag), w.startTime, [w.text], out)
    else
      s.(text := s.text + [w.text])
  }

  /** The loop over the words of one result. */
  function StepAll(s: State, ws: seq<Word>): (t: State)
    ensures s.out <= t.out
    ensures ws != [] ==> t.current == Some(ws[|ws| - 1].speakerTag) && t.text != [] && t.text[|t.text| - 1] == ws[|ws| - 1].text
    decreases |ws|
  {
    if ws == [] then s else Step(StepAll(s, ws[..|ws| - 1]), ws[|ws| - 1])
  }

  /** The emission after a result's words: the open text, ending at the given offset. */
  function Flush(s: State, endTime: nat): (t: State)
    ensures t.(out := s.out) == s
    ensures s.out <= t.out && |t.out| <= |s.out| + 1
    ensures |t.out| == |s.out| + 1 <==> s.text != [] && s.current.Some?
  {
    if s.text != [] && s.current.Some? then
      s.(out := s.out + [Segment(s.current.value, s.start, endTime, s.text)])
    else s
  }

  /** One pass of the loop over results: a result without words is skipped. */
  function ProcessResult(s: State, ws: seq<Word>): (t: State)
    ensures s.out <= t.out
    ensures ws == [] ==> t == s
    ensures ws != [] ==> t.current == Some(ws[|ws| - 1].speakerTag) && |t.out| > |s.out|
    ensures ws != [] ==> t.out[|t.out| - 1].speaker == ws[|ws| - 1].speakerTag && t.out[|t.out| - 1].endTime == ws[|ws| - 1].endTime
  {
    if ws == [] then s else Flush(StepAll(s, ws), ws[|ws| - 1].endTime)
  }

  /** The loop over all results, from the initial state. */
  function ProcessAll(rs: seq<seq<Word>>): (s: State)
    ensures s.text != [] ==> s.current.Some?
    ensures s.current.None? <==> s.out == []
    decreases |rs|
  {
    if rs == [] then Init() else ProcessResult(ProcessAll(rs[..|rs| - 1]), rs[|rs| - 1])
  }

  /** The segments the builder emits, before formatting. */
  function Build(rs: seq<seq<Word>>): seq<Segment> {
    ProcessAll(rs).out
  }

  /** `' '.join(words)`. */
  function Join(words: seq<string>): (s: string)
    ensures words != [] ==> words[0] <= s
    decreases |words|
  {
    if words == [] then ""
    else if |words| == 1 then words[0]
    else
      var front := words[..|words| - 1];
      assert front[0] == words[0];
      Join(front) + " " + words[|words| - 1]
  }

  /**
   * The dictionary built for a segment: `Speaker <tag>`, both offsets
   * formatted, the joined text. The label ends in the one decimal form of
   * the tag, which reads back as the tag.
   */
  function Render(seg: Segment): (r: SegmentRecord)
    ensures |r.speaker| > 8 && r.speaker[..8] == "Speaker " && ParseInt(r.speaker[8..]) == Some(seg.speaker)
    ensures r.speaker[8..] == IntToString(seg.speaker)
  {
    IntToStringRoundTrip(seg.speaker);
    var name := "Speaker " + IntToString(seg.speaker);
    assert name[8..] == IntToString(seg.speaker);
    SegmentRecord(name, FormatTimestamp(seg.startTime), FormatTimestamp(seg.endTime), Join(seg.words))
  }

  /** `f` applied to every element, in order. */
  function Map<A, B>(f: A -> B, xs: seq<A>): (ys: seq<B>)
    ensures |ys| == |xs|
  {
    seq(|xs|, k requires 0 <= k < |xs| => f(xs[k]))
  }

  lemma MapSnoc<A, B>(f: A -> B, xs: seq<A>, x: A)
    ensures Map(f, xs + [x]) == Map(f, xs) + [f(x)]
  {
  }

  /** The dictionaries of the segments, in order. */
  function RenderAll(segs: seq<Segment>): seq<SegmentRecord> {
    Map(Render, segs)
  }

  lemma StepAllNext(entry: State, words: seq<Word>, j: nat)
    requires j < |words|
    ensures StepAll(entry, words[..j + 1]) == Step(StepAll(entry, words[..j]), words[j])
  {
    assert words[..j + 1][..j] == words[..j];
  }

  lemma ProcessAllNext(results: seq<seq<Word>>, i: nat)
    requires i < |results|
    ensures ProcessAll(results[..i + 1]) == ProcessResult(ProcessAll(results[..i]), results[i])
  {
    assert results[..i + 1][..i] == results[..i];
  }

  /**
   * The builder as written: for each result with words, walk its words,
   * closing a segment whenever the speaker tag changes, then emit the open
   * text ending at the last word's end. The speaker, start and text
   * variables are not reset between results. Each emitted segment becomes
   * `render` of it; the builder itself passes `Render`.
   */
  method CollectSegments<R>(results: seq<seq<Word>>, render: Segment -> R) returns (speakerSegments: seq<R>)
    ensures speakerSegments == Map(render, Build(results))
  {
    speakerSegments := [];
    var currentSpeaker: Option<int> := None;
    var segmentStart: nat := 0;
    var currentText: seq<string> := [];
    ghost var segs: seq<Segment> := [];
    for i := 0 to |results|
      invariant ProcessAll(results[..i]) == State(currentSpeaker, segmentStart, currentText, segs)
      invariant speakerSegments == Map(render, segs)
      invariant currentText != [] ==> currentSpeaker.Some?
    {
      ProcessAllNext(results, i);
      var words := results[i];
      if words != [] {
        ghost var entry := State(currentSpeaker, segmentStart, currentText, segs);
        var wordEndTime: nat := 0;
        for j := 0 to |words|
          invariant StepAll(entry, words[..j]) == State(currentSpeaker, segmentStart, currentText, segs)
          invariant speakerSegments == Map(render, segs)
          invariant currentText != [] ==> currentSpeaker.Some?
          invariant j > 0 ==> wordEndTime == words[j - 1].endTime
        {
          StepAllNext(entry, words, j);
          var word := words[j];
          var wordStartTime := word.startTime;
          wordEndTime := word.endTime;
          var speakerTag := word.speakerTag;
          if Some(speakerTag) != currentSpeaker {
            if currentSpeaker.Some? {
              var closed := Segment(currentSpeaker.value, segmentStart, wordStartTime, currentText);
              MapSnoc(render, segs, closed);
              speakerSegments := speakerSegments + [render(closed)];
              segs := segs + [closed];
            }
            currentSpeaker := Some(speakerTag);
            segmentStart := wordStartTime;
            currentText := [word.text];
          } else {
            currentText := currentText + [word.text];
          }
        }
        assert words[..|words|] == words;
        if currentText != [] {
          var last := Segment(currentSpeaker.value, segmentStart, wordEndTime, currentText);
          MapSnoc(render, segs, last);
          speakerSegments := speakerSegments + [render(last)];
          segs := segs + [last];
        }
      }
    }
    assert results[..|results|] == results;
  }

  /** `transcribe_with_diarization` from the recognition response on: the list of segment dictionaries. */
  method BuildSegments(results: seq<seq<Word>>) returns (speakerSegments: seq<SegmentRecord>)
    ensures speakerSegments == RenderAll(Build(results))
  {
    speakerSegments := CollectSegments(results, Render);
  }
}
