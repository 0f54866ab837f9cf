/**
 * What the segment builder of `transcribe_with_diarization` computes. On one
 * result it cuts the words into maximal runs of one speaker; across several
 * results its state carries over and earlier text is emitted again.
 */
module DiarizationProperties {
  import opened Wrappers
  import opened Diarization

  /** The concatenation of a sequence of sequences. */
  function Concat<T>(xss: seq<seq<T>>): seq<T>
    decreases |xss|
  {
    if xss == [] then [] else xss[0] + Concat(xss[1..])
  }

  lemma {:induction false} ConcatSnoc<T>(xss: seq<seq<T>>, ys: seq<T>)
    ensures Concat(xss + [ys]) == Concat(xss) + ys
    decreases |xss|
  {
    if xss == [] {
      assert [ys][1..] == [];
    } else {
      assert (xss + [ys])[1..] == xss[1..] + [ys];
      ConcatSnoc(xss[1..], ys);
    }
  }

  /** The texts of some words, in order. */
  function Texts(ws: seq<Word>): (ts: seq<string>)
    ensures |ts| == |ws| && forall i :: 0 <= i < |ws| ==> ts[i] == ws[i].text
  {
    seq(|ws|, i requires 0 <= i < |ws| => ws[i].text)
  }

  lemma TextsAppend(a: seq<Word>, b: seq<Word>)
    ensures Texts(a + b) == Texts(a) + Texts(b)
  {
    assert forall i :: 0 <= i < |a + b| ==> Texts(a + b)[i] == (Texts(a) + Texts(b))[i];
  }

  /** The texts of the segments, one after another. */
  function SegmentWords(segs: seq<Segment>): seq<string>
    decreases |segs|
  {
    if segs == [] then [] else segs[0].words + SegmentWords(segs[1..])
  }

  /** A non-empty run of words that all carry the tag of its first word. */
  predicate SameSpeaker(run: seq<Word>) {
    run != [] && forall i :: 0 <= i < |run| ==> run[i].speakerTag == run[0].speakerTag
  }

  predicate NonEmptyRuns(runs: seq<seq<Word>>) {
    forall k :: 0 <= k < |runs| ==> runs[k] != []
  }

  /**
   * `runs` cuts `ws` into maximal runs of one speaker: together they are `ws`,
   * each is one speaker's, and neighbouring runs belong to different speakers.
   */
  predicate IsRunSplit(ws: seq<Word>, runs: seq<seq<Word>>) {
    && Concat(runs) == ws
    && (forall k :: 0 <= k < |runs| ==> SameSpeaker(runs[k]))
    && (forall k :: 0 < k < |runs| ==> runs[k][0].speakerTag != runs[k - 1][0].speakerTag)
  }

  /** The maximal runs of `ws`, each word joining the last run when its tag matches. */
  function Runs(ws: seq<Word>): (runs: seq<seq<Word>>)
    ensures |runs| > 0 <==> |ws| > 0
    ensures NonEmptyRuns(runs)
    decreases |ws|
  {
    if ws == [] then []
    else
      var runs := Runs(ws[..|ws| - 1]);
      var w := ws[|ws| - 1];
      if runs != [] && runs[|runs| - 1][0].speakerTag == w.speakerTag then
        runs[..|runs| - 1] + [runs[|runs| - 1] + [w]]
      else
        runs + [[w]]
  }

  /** A word of the last run's speaker extends that run. */
  lemma ExtendLastRun(init: seq<Word>, front: seq<seq<Word>>, last: seq<Word>, w: Word)
    requires last != [] && IsRunSplit(init, front + [last]) && last[0].speakerTag == w.speakerTag
    ensures IsRunSplit(init + [w], front + [last + [w]])
  {
    var runs := front + [last + [w]];
    assert (front + [last])[|front|] == last;
    ConcatSnoc(front, last);
    ConcatSnoc(front, last + [w]);
    assert forall k :: 0 <= k < |front| ==> runs[k] == (front + [last])[k];
    assert SameSpeaker(last) && SameSpeaker(last + [w]);
  }

  /** A word of another speaker, or the first word, opens a new run. */
  lemma OpenRun(init: seq<Word>, prev: seq<seq<Word>>, w: Word)
    requires IsRunSplit(init, prev)
    requires prev != [] ==> prev[|prev| - 1][0].speakerTag != w.speakerTag
    ensures IsRunSplit(init + [w], prev + [[w]])
  {
    ConcatSnoc(prev, [w]);
    assert SameSpeaker([w]);
  }

  /** `Runs` does cut the words into maximal runs of one speaker. */
  lemma {:induction false} RunsSplit(ws: seq<Word>)
    ensures IsRunSplit(ws, Runs(ws))
    decreases |ws|
  {
    if ws != [] {
      var init: seq<Word>, w: Word := ws[..|ws| - 1], ws[|ws| - 1];
      assert ws == init + [w];
      RunsSplit(init);
      var prev: seq<seq<Word>> := Runs(init);
      if prev != [] && prev[|prev| - 1][0].speakerTag == w.speakerTag {
        assert prev == prev[..|prev| - 1] + [prev[|prev| - 1]];
        ExtendLastRun(init, prev[..|prev| - 1], prev[|prev| - 1], w);
      } else {
        OpenRun(init, prev, w);
      }
    }
  }

  /** How many words at the front of `ws` carry the tag `tag`. */
  function LeadingRun(ws: seq<Word>, tag: int): (n: nat)
    ensures n <= |ws|
    ensures forall i :: 0 <= i < n ==> ws[i].speakerTag == tag
    ensures n < |ws| ==> ws[n].speakerTag != tag
    decreases |ws|
  {
    if ws == [] || ws[0].speakerTag != tag then 0 else 1 + LeadingRun(ws[1..], tag)
  }

  /** The first run of any split is the leading run of the first word's speaker. */
  lemma RunHead(ws: seq<Word>, runs: seq<seq<Word>>)
    requires IsRunSplit(ws, runs) && runs != []
    ensures ws != [] && |runs[0]| == LeadingRun(ws, ws[0].speakerTag)
    ensures runs[0] == ws[..|runs[0]|] && IsRunSplit(ws[|runs[0]|..], runs[1..])
  {
    var head := runs[0];
    var p := |head|;
    assert ws == head + Concat(runs[1..]);
    assert ws[..p] == head && ws[p..] == Concat(runs[1..]);
    assert forall i :: 0 <= i < p ==> ws[i].speakerTag == ws[0].speakerTag;
    if p < |ws| {
      assert runs[1..] != [];
      assert ws[p] == runs[1][0];
    }
    var n := LeadingRun(ws, ws[0].speakerTag);
    assert n == p;
  }

  /** Maximal runs are unique: two splits of the same words are the same split. */
  lemma {:induction false} RunSplitUnique(ws: seq<Word>, a: seq<seq<Word>>, b: seq<seq<Word>>)
    requires IsRunSplit(ws, a) && IsRunSplit(ws, b)
    ensures a == b
    decreases |ws|
  {
    if a != [] && b != [] {
      RunHead(ws, a);
      RunHead(ws, b);
      RunSplitUnique(ws[|a[0]|..], a[1..], b[1..]);
      assert a == [a[0]] + a[1..] && b == [b[0]] + b[1..];
    }
  }

  /** The segment of one run: its speaker, its first word's start, the given end and its texts. */
  function RunSegment(run: seq<Word>, endTime: nat): Segment
    requires run != []
  {
    Segment(run[0].speakerTag, run[0].startTime, endTime, Texts(run))
  }

  /**
   * One segment per run, in order: each ends where the next run starts, and
   * the last ends at `endTime`.
   */
  function RunSegments(runs: seq<seq<Word>>, endTime: nat): (segs: seq<Segment>)
    requires NonEmptyRuns(runs)
    ensures |segs| == |runs|
    ensures forall k :: 0 <= k < |runs| ==>
      segs[k] == RunSegment(runs[k], if k + 1 < |runs| then runs[k + 1][0].startTime else endTime)
  {
    seq(|runs|, k requires 0 <= k < |runs| =>
      RunSegment(runs[k], if k + 1 < |runs| then runs[k + 1][0].startTime else endTime))
  }

  lemma RunSegmentsSnoc(runs: seq<seq<Word>>, run: seq<Word>, endTime: nat)
    requires NonEmptyRuns(runs) && run != []
    ensures NonEmptyRuns(runs + [run])
    ensures RunSegments(runs + [run], endTime) == RunSegments(runs, run[0].startTime) + [RunSegment(run, endTime)]
  {
    var all := runs + [run];
    assert forall k :: 0 <= k < |runs| ==> all[k] == runs[k];
    assert all[|runs|] == run;
  }

  /**
   * After the words of a single result, the closed segments are those of all
   * runs but the last, and the open segment is the last run.
   */
  lemma {:induction false} StepAllRuns(ws: seq<Word>)
    requires ws != []
    ensures var runs := Runs(ws); var last := runs[|runs| - 1];
      StepAll(Init(), ws)
        == State(Some(last[0].speakerTag), last[0].startTime, Texts(last),
                 RunSegments(runs[..|runs| - 1], last[0].startTime))
    decreases |ws|
  {
    var init: seq<Word>, w: Word := ws[..|ws| - 1], ws[|ws| - 1];
    if init == [] {
      assert Runs(ws) == [[w]];
    } else {
      StepAllRuns(init);
      var prev: seq<seq<Word>> := Runs(init);
      var front: seq<seq<Word>>, last: seq<Word> := prev[..|prev| - 1], prev[|prev| - 1];
      assert prev == front + [last];
      if last[0].speakerTag == w.speakerTag {
        assert Runs(ws) == front + [last + [w]];
        assert (front + [last + [w]])[..|front|] == front;
        TextsAppend(last, [w]);
      } else {
        assert Runs(ws) == prev + [[w]];
        assert (prev + [[w]])[..|prev|] == prev;
        RunSegmentsSnoc(front, last, w.startTime);
      }
    }
  }

  lemma BuildOne(ws: seq<Word>)
    requires ws != []
    ensures Build([ws]) == Flush(StepAll(Init(), ws), ws[|ws| - 1].endTime).out
  {
    assert [ws][..0] == [];
    assert ProcessAll([ws]) == ProcessResult(ProcessAll([]), ws);
  }

  lemma FlushOpen(s: State, tag: int, start: nat, text: seq<string>, closed: seq<Segment>, endTime: nat)
    requires s == State(Some(tag), start, text, closed) && text != []
    ensures Flush(s, endTime).out == closed + [Segment(tag, start, endTime, text)]
  {
  }

  /** A single result gives one segment per run, the last ending at the last word's end. */
  lemma SingleResultRuns(ws: seq<Word>)
    requires ws != []
    ensures Build([ws]) == RunSegments(Runs(ws), ws[|ws| - 1].endTime)
  {
    var runs := Runs(ws);
    var front: seq<seq<Word>>, last: seq<Word> := runs[..|runs| - 1], runs[|runs| - 1];
    var endTime := ws[|ws| - 1].endTime;
    BuildOne(ws);
    StepAllRuns(ws);
    FlushOpen(StepAll(Init(), ws), last[0].speakerTag, last[0].startTime, Texts(last),
      RunSegments(front, last[0].startTime), endTime);
    assert runs == front + [last];
    RunSegmentsSnoc(front, last, endTime);
  }

  /**
   * For a single result, the builder emits exactly one segment per maximal
   * run of one speaker, in order: it starts at the run's first word, ends at
   * the next run's first word (the last one at the last word's end) and
   * holds the run's texts.
   */
  lemma SingleResult(ws: seq<Word>, runs: seq<seq<Word>>)
    requires ws != [] && IsRunSplit(ws, runs)
    ensures NonEmptyRuns(runs)
    ensures Build([ws]) == RunSegments(runs, ws[|ws| - 1].endTime)
  {
    RunsSplit(ws);
    RunSplitUnique(ws, runs, Runs(ws));
    SingleResultRuns(ws);
  }

  /** The segments of a split hold every text once, in order. */
  lemma {:induction false} RunSegmentsCover(runs: seq<seq<Word>>, endTime: nat)
    requires NonEmptyRuns(runs)
    ensures SegmentWords(RunSegments(runs, endTime)) == Texts(Concat(runs))
    decreases |runs|
  {
    if runs != [] {
      var segs := RunSegments(runs, endTime);
      assert NonEmptyRuns(runs[1..]);
      assert segs[1..] == RunSegments(runs[1..], endTime);
      RunSegmentsCover(runs[1..], endTime);
      TextsAppend(runs[0], Concat(runs[1..]));
    }
  }

  /** The segments of a split, read against the words it splits. */
  lemma RunSegmentsFacts(ws: seq<Word>, runs: seq<seq<Word>>, endTime: nat)
    requires ws != [] && IsRunSplit(ws, runs)
    ensures NonEmptyRuns(runs)
    ensures var segs := RunSegments(runs, endTime);
      && segs != []
      && segs[0].startTime == ws[0].startTime
      && segs[|segs| - 1].endTime == endTime
      && (forall k :: 0 < k < |segs| ==> segs[k].speaker != segs[k - 1].speaker)
      && (forall k :: 0 < k < |segs| ==> segs[k - 1].endTime == segs[k].startTime)
      && SegmentWords(segs) == Texts(ws)
  {
    assert ws == runs[0] + Concat(runs[1..]);
    RunSegmentsCover(runs, endTime);
  }

  /**
   * The single-result guarantees: the first segment starts at the first word,
   * the last ends at the last word's end, neighbouring segments have different
   * speakers, each segment ends where the next starts, and the texts of the
   * segments are the words' texts, each once and in order.
   */
  lemma SingleResultSegments(ws: seq<Word>)
    requires ws != []
    ensures var segs := Build([ws]);
      && segs != []
      && segs[0].startTime == ws[0].startTime
      && segs[|segs| - 1].endTime == ws[|ws| - 1].endTime
      && (forall k :: 0 < k < |segs| ==> segs[k].speaker != segs[k - 1].speaker)
      && (forall k :: 0 < k < |segs| ==> segs[k - 1].endTime == segs[k].startTime)
      && SegmentWords(segs) == Texts(ws)
  {
    RunsSplit(ws);
    SingleResultRuns(ws);
    RunSegmentsFacts(ws, Runs(ws), ws[|ws| - 1].endTime);
  }

  /** Every word ends no earlier than it starts, and start offsets never decrease. */
  predicate TimeOrdered(ws: seq<Word>) {
    && (forall i :: 0 <= i < |ws| ==> ws[i].startTime <= ws[i].endTime)
    && (forall i :: 0 < i < |ws| ==> ws[i - 1].startTime <= ws[i].startTime)
  }

  /**
   * On time-ordered words the open segment starts no later than the latest
   * word, and every closed segment ends no earlier than it starts and no
   * later than the open segment's start.
   */
  lemma {:induction false} StepAllTimes(ws: seq<Word>)
    requires ws != [] && TimeOrdered(ws)
    ensures var s := StepAll(Init(), ws);
      && s.start <= ws[|ws| - 1].startTime
      && forall k :: 0 <= k < |s.out| ==> s.out[k].startTime <= s.out[k].endTime <= s.start
    decreases |ws|
  {
    var init, w := ws[..|ws| - 1], ws[|ws| - 1];
    if init != [] {
      assert TimeOrdered(init);
      StepAllTimes(init);
      assert init[|init| - 1] == ws[|ws| - 2];
    }
  }

  /**
   * For one result of time-ordered words, every segment ends no earlier than
   * it starts, and segment starts never decrease.
   */
  lemma SingleResultTimes(ws: seq<Word>)
    requires ws != [] && TimeOrdered(ws)
    ensures var segs := Build([ws]);
      && (forall k :: 0 <= k < |segs| ==> segs[k].startTime <= segs[k].endTime)
      && (forall k :: 0 < k < |segs| ==> segs[k - 1].startTime <= segs[k].startTime)
  {
    BuildOne(ws);
    StepAllTimes(ws);
    SingleResultSegments(ws);
  }
}
