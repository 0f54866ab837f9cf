/**
 * The segment builder across several recognition results. The emission of
 * the open text sits inside the loop over results and the loop variables are
 * never reset, so every result with words ends in one more segment and text
 * from earlier results is emitted again.
 */
module MultipleResults {
  import opened Wrappers
  import opened Diarization
  import opened DiarizationProperties

  /** The results that have words, in order. */
  function NonEmpty(rs: seq<seq<Word>>): (ne: seq<seq<Word>>)
    ensures |ne| <= |rs|
    ensures forall k :: 0 <= k < |ne| ==> ne[k] != []
    decreases |rs|
  {
    if rs == [] then []
    else NonEmpty(rs[..|rs| - 1]) + (if rs[|rs| - 1] == [] then [] else [rs[|rs| - 1]])
  }

  lemma ProcessAllSnoc(rs: seq<seq<Word>>, ws: seq<Word>)
    ensures ProcessAll(rs + [ws]) == ProcessResult(ProcessAll(rs), ws)
  {
    assert (rs + [ws])[..|rs|] == rs;
  }

  /** Results without words change nothing: the builder sees only the results that have words. */
  lemma {:induction false} EmptyResultsSkipped(rs: seq<seq<Word>>)
    ensures ProcessAll(rs) == ProcessAll(NonEmpty(rs))
    decreases |rs|
  {
    if rs != [] {
      var init: seq<seq<Word>>, ws: seq<Word> := rs[..|rs| - 1], rs[|rs| - 1];
      assert rs == init + [ws];
      assert NonEmpty(rs) == NonEmpty(init) + (if ws == [] then [] else [ws]);
      assert ProcessAll(rs) == ProcessResult(ProcessAll(init), ws);
      EmptyResultsSkipped(init);
      if ws != [] {
        assert NonEmpty(rs) == NonEmpty(init) + [ws];
        ProcessAllSnoc(NonEmpty(init), ws);
      } else {
        assert NonEmpty(rs) == NonEmpty(init);
      }
    }
  }

  /** When no result has words, nothing is emitted and the loop variables keep their initial values. */
  lemma {:induction false} NoWordsNoSegments(rs: seq<seq<Word>>)
    requires forall k :: 0 <= k < |rs| ==> rs[k] == []
    ensures ProcessAll(rs) == Init() && Build(rs) == []
    decreases |rs|
  {
    if rs != [] {
      NoWordsNoSegments(rs[..|rs| - 1]);
    }
  }

  /** Something is emitted exactly when some result has words. */
  lemma {:induction false} SegmentsExactlyWithWords(rs: seq<seq<Word>>)
    ensures Build(rs) == [] <==> forall k :: 0 <= k < |rs| ==> rs[k] == []
    decreases |rs|
  {
    if rs != [] {
      var init: seq<seq<Word>>, ws: seq<Word> := rs[..|rs| - 1], rs[|rs| - 1];
      SegmentsExactlyWithWords(init);
      assert forall k :: 0 <= k < |init| ==> init[k] == rs[k];
      if ws == [] {
        assert Build(rs) == Build(init);
      } else {
        assert Build(rs) != [];
      }
    }
  }

  /**
   * Every result with words ends in one more segment: it is spoken by the
   * result's last speaker, ends at the result's last word's end and its text
   * ends with that word. Earlier segments are left as they were.
   */
  lemma FlushPerResult(rs: seq<seq<Word>>, ws: seq<Word>)
    requires ws != []
    ensures var before := Build(rs); var after := Build(rs + [ws]); var last := after[|after| - 1].words;
      && before < after
      && after[|after| - 1].speaker == ws[|ws| - 1].speakerTag
      && after[|after| - 1].endTime == ws[|ws| - 1].endTime
      && last != [] && last[|last| - 1] == ws[|ws| - 1].text
  {
    ProcessAllSnoc(rs, ws);
  }

  /**
   * Once something has been emitted, the last segment emitted is the segment
   * still open: same speaker, same start, same text.
   */
  lemma {:induction false} OpenIsLastSegment(rs: seq<seq<Word>>)
    requires Build(rs) != []
    ensures var s := ProcessAll(rs);
      && s.current.Some? && s.out != []
      && s.out[|s.out| - 1].speaker == s.current.value
      && s.out[|s.out| - 1].startTime == s.start
      && s.out[|s.out| - 1].words == s.text
    decreases |rs|
  {
    var init: seq<seq<Word>>, ws: seq<Word> := rs[..|rs| - 1], rs[|rs| - 1];
    assert rs == init + [ws];
    ProcessAllSnoc(init, ws);
    if ws == [] {
      OpenIsLastSegment(init);
    }
  }

  /**
   * The first segment emitted for new words continues the segment that was
   * open: same speaker and start, and a text that begins with the open text.
   */
  lemma {:induction false} StepAllKeepsOpen(s: State, ws: seq<Word>)
    requires s.current.Some?
    ensures var t := StepAll(s, ws);
      && s.out <= t.out
      && (|t.out| == |s.out| ==> t.current == s.current && t.start == s.start && s.text <= t.text)
      && (|t.out| > |s.out| ==>
            t.out[|s.out|].speaker == s.current.value && t.out[|s.out|].startTime == s.start
            && s.text <= t.out[|s.out|].words)
    decreases |ws|
  {
    if ws != [] {
      StepAllKeepsOpen(s, ws[..|ws| - 1]);
    }
  }

  /**
   * Text is emitted again: after a segment has been emitted, the next result
   * with words emits a segment with the same speaker and start whose text
   * begins with all of that segment's text.
   */
  lemma CarryOver(rs: seq<seq<Word>>, ws: seq<Word>)
    requires Build(rs) != [] && ws != []
    ensures var before := Build(rs); var after := Build(rs + [ws]); var prev := before[|before| - 1];
      && before < after
      && after[|before|].speaker == prev.speaker
      && after[|before|].startTime == prev.startTime
      && prev.words <= after[|before|].words
  {
    var s := ProcessAll(rs);
    OpenIsLastSegment(rs);
    ProcessAllSnoc(rs, ws);
    StepAllKeepsOpen(s, ws);
    var t := StepAll(s, ws);
    assert t.text != [] && t.current.Some?;
    assert Build(rs + [ws]) == Flush(t, ws[|ws| - 1].endTime).out;
  }

  lemma {:induction false} StepAllFirst(s: State, ws: seq<Word>)
    requires ws != []
    ensures StepAll(s, ws) == StepAll(Step(s, ws[0]), ws[1..])
    decreases |ws|
  {
    if |ws| == 1 {
      assert ws[..0] == [] && ws[1..] == [];
    } else {
      var init, rest := ws[..|ws| - 1], ws[1..];
      StepAllFirst(s, init);
      assert init[0] == ws[0];
      assert rest[..|rest| - 1] == init[1..] && rest[|rest| - 1] == ws[|ws| - 1];
      assert StepAll(Step(s, ws[0]), rest) == Step(StepAll(Step(s, ws[0]), init[1..]), ws[|ws| - 1]);
    }
  }

  /**
   * When the next result opens with another speaker, the last segment is
   * emitted a second time, now ending at that result's first word.
   */
  lemma RepeatedOnSpeakerChange(rs: seq<seq<Word>>, ws: seq<Word>)
    requires Build(rs) != [] && ws != []
    requires ws[0].speakerTag != Build(rs)[|Build(rs)| - 1].speaker
    ensures var before := Build(rs); var after := Build(rs + [ws]);
      before < after && after[|before|] == before[|before| - 1].(endTime := ws[0].startTime)
  {
    var s := ProcessAll(rs);
    OpenIsLastSegment(rs);
    ProcessAllSnoc(rs, ws);
    StepAllFirst(s, ws);
    var first := Step(s, ws[0]);
    assert first.out == s.out + [Segment(s.current.value, s.start, ws[0].startTime, s.text)];
  }

  /**
   * The builder with the closing emission after the loop over results, once:
   * the loop variables still carry from result to result.
   */
  function WalkAll(rs: seq<seq<Word>>): State
    decreases |rs|
  {
    if rs == [] then Init() else StepAll(WalkAll(rs[..|rs| - 1]), rs[|rs| - 1])
  }

  function BuildFlushOnce(rs: seq<seq<Word>>): seq<Segment> {
    var ws := Concat(rs);
    if ws == [] then [] else Flush(WalkAll(rs), ws[|ws| - 1].endTime).out
  }

  lemma {:induction false} StepAllAppend(s: State, a: seq<Word>, b: seq<Word>)
    ensures StepAll(s, a + b) == StepAll(StepAll(s, a), b)
    decreases |b|
  {
    if b == [] {
      assert a + b == a;
    } else {
      var init := b[..|b| - 1];
      StepAllAppend(s, a, init);
      assert (a + b)[..|a + b| - 1] == a + init;
    }
  }

  /** Walking the results one after another walks all their words in order. */
  lemma {:induction false} WalkAllConcat(rs: seq<seq<Word>>)
    ensures WalkAll(rs) == StepAll(Init(), Concat(rs))
    decreases |rs|
  {
    if rs != [] {
      var init: seq<seq<Word>>, ws: seq<Word> := rs[..|rs| - 1], rs[|rs| - 1];
      assert rs == init + [ws];
      WalkAllConcat(init);
      ConcatSnoc(init, ws);
      StepAllAppend(Init(), Concat(init), ws);
    }
  }

  /**
   * With one emission after all results, the segments are one per maximal
   * run of all the words, exactly as for a single result.
   */
  lemma FlushOnceRuns(rs: seq<seq<Word>>, runs: seq<seq<Word>>)
    requires IsRunSplit(Concat(rs), runs)
    ensures NonEmptyRuns(runs)
    ensures var ws := Concat(rs);
      BuildFlushOnce(rs) == if ws == [] then [] else RunSegments(runs, ws[|ws| - 1].endTime)
  {
    var ws := Concat(rs);
    WalkAllConcat(rs);
    if ws != [] {
      SingleResult(ws, runs);
      BuildOne(ws);
    }
  }

  /** With one emission after all results, every word's text is emitted exactly once, in order. */
  lemma FlushOnceEachWordOnce(rs: seq<seq<Word>>)
    ensures SegmentWords(BuildFlushOnce(rs)) == Texts(Concat(rs))
  {
    var ws := Concat(rs);
    RunsSplit(ws);
    FlushOnceRuns(rs, Runs(ws));
    if ws != [] {
      RunSegmentsFacts(ws, Runs(ws), ws[|ws| - 1].endTime);
    }
  }

  lemma {:induction false} ConcatNonEmpty(rs: seq<seq<Word>>)
    ensures Concat(NonEmpty(rs)) == Concat(rs)
    decreases |rs|
  {
    if rs != [] {
      var init: seq<seq<Word>>, ws: seq<Word> := rs[..|rs| - 1], rs[|rs| - 1];
      assert rs == init + [ws];
      assert NonEmpty(rs) == NonEmpty(init) + (if ws == [] then [] else [ws]);
      ConcatNonEmpty(init);
      ConcatSnoc(init, ws);
      if ws != [] {
        assert NonEmpty(rs) == NonEmpty(init) + [ws];
        ConcatSnoc(NonEmpty(init), ws);
      } else {
        assert NonEmpty(rs) == NonEmpty(init);
      }
    }
  }

  /** With at most one result that has words, the builder as written and the single emission agree. */
  lemma FlushOnceAgrees(rs: seq<seq<Word>>)
    requires |NonEmpty(rs)| <= 1
    ensures Build(rs) == BuildFlushOnce(rs)
  {
    EmptyResultsSkipped(rs);
    ConcatNonEmpty(rs);
    WalkAllConcat(rs);
    var ne := NonEmpty(rs);
    if ne == [] {
      assert Concat(rs) == [];
    } else {
      OneResultAgrees(rs, ne[0]);
    }
  }

  lemma OneResultAgrees(rs: seq<seq<Word>>, ws: seq<Word>)
    requires NonEmpty(rs) == [ws] && ws != []
    requires ProcessAll(rs) == ProcessAll(NonEmpty(rs))
    requires Concat(NonEmpty(rs)) == Concat(rs)
    requires WalkAll(rs) == StepAll(Init(), Concat(rs))
    ensures Build(rs) == BuildFlushOnce(rs)
  {
    ConcatOne(ws);
    assert Concat(rs) == ws;
    assert Build(rs) == Build([ws]);
    BuildOne(ws);
    assert BuildFlushOnce(rs) == Flush(WalkAll(rs), ws[|ws| - 1].endTime).out;
  }

  /** Two states that differ only in their output keep doing so over the same words, and emit as many segments. */
  lemma {:induction false} StepAllSameCount(s: State, t: State, ws: seq<Word>)
    requires s.(out := t.out) == t
    ensures var s2 := StepAll(s, ws); var t2 := StepAll(t, ws);
      s2.(out := t2.out) == t2 && |s2.out| - |s.out| == |t2.out| - |t.out|
    decreases |ws|
  {
    if ws != [] {
      StepAllSameCount(s, t, ws[..|ws| - 1]);
    }
  }

  /**
   * The builder as written and the walk without emissions hold the same open
   * segment, and the builder has emitted one more segment per result with words.
   */
  lemma {:induction false} ProcessWalk(rs: seq<seq<Word>>)
    ensures var p := ProcessAll(rs); var w := WalkAll(rs);
      p.(out := w.out) == w && |p.out| == |w.out| + |NonEmpty(rs)|
    decreases |rs|
  {
    if rs != [] {
      var init: seq<seq<Word>>, ws: seq<Word> := rs[..|rs| - 1], rs[|rs| - 1];
      ProcessWalk(init);
      assert NonEmpty(rs) == NonEmpty(init) + (if ws == [] then [] else [ws]);
      StepAllSameCount(ProcessAll(init), WalkAll(init), ws);
    }
  }

  lemma {:induction false} NoWordsInResults(rs: seq<seq<Word>>)
    ensures Concat(rs) == [] <==> NonEmpty(rs) == []
  {
    ConcatNonEmpty(rs);
    var ne := NonEmpty(rs);
    if ne != [] {
      assert Concat(ne) == ne[0] + Concat(ne[1..]);
    }
  }

  /**
   * The builder as written emits one segment more than the single emission for
   * every result with words beyond the first.
   */
  lemma FlushOnceCount(rs: seq<seq<Word>>)
    requires Concat(rs) != []
    ensures |NonEmpty(rs)| >= 1
    ensures |Build(rs)| == |BuildFlushOnce(rs)| + |NonEmpty(rs)| - 1
  {
    NoWordsInResults(rs);
    ProcessWalk(rs);
    WalkAllConcat(rs);
  }

  /** The builder as written and the single emission agree exactly when at most one result has words. */
  lemma FlushOnceExactly(rs: seq<seq<Word>>)
    ensures Build(rs) == BuildFlushOnce(rs) <==> |NonEmpty(rs)| <= 1
  {
    if |NonEmpty(rs)| <= 1 {
      FlushOnceAgrees(rs);
    } else {
      NoWordsInResults(rs);
      FlushOnceCount(rs);
    }
  }

  lemma ConcatOne(xs: seq<Word>)
    ensures Concat([xs]) == xs
  {
    assert [xs][1..] == [];
  }

  lemma StepAllOne(s: State, w: Word)
    ensures StepAll(s, [w]) == Step(s, w)
  {
    assert [w][..0] == [];
  }

  lemma StepAllTwo(s: State, a: Word, b: Word)
    ensures StepAll(s, [a, b]) == Step(Step(s, a), b)
  {
    assert [a, b][..1] == [a];
    StepAllOne(s, a);
  }

  /** The as-written builder on two results of one word each. */
  lemma TwoResults(a: Word, b: Word)
    ensures var first := Flush(Step(Init(), a), a.endTime);
      Build([[a], [b]]) == Flush(Step(first, b), b.endTime).out
  {
    ProcessAllSnoc([], [a]);
    assert [] + [[a]] == [[a]];
    ProcessAllSnoc([[a]], [b]);
    assert [[a]] + [[b]] == [[a], [b]];
    StepAllOne(Init(), a);
    StepAllOne(Flush(Step(Init(), a), a.endTime), b);
  }

  /** A single emission after two results of one word each. */
  lemma TwoResultsFlushOnce(a: Word, b: Word)
    ensures BuildFlushOnce([[a], [b]]) == Flush(Step(Step(Init(), a), b), b.endTime).out
  {
    assert [[a], [b]][1..] == [[b]];
    ConcatOne([b]);
    assert Concat([[a], [b]]) == [a, b];
    WalkAllConcat([[a], [b]]);
    StepAllTwo(Init(), a, b);
  }

  lemma SegmentWordsTwo(x: Segment, y: Segment)
    ensures SegmentWords([x, y]) == x.words + y.words
  {
    assert [x, y][1..] == [y] && [y][1..] == [];
    assert SegmentWords([y]) == y.words;
  }

  /**
   * Two results, one word each, same speaker: the first word's text is
   * emitted twice, where a single emission after all results emits it once.
   */
  lemma TwoResultsSameSpeaker(a: Word, b: Word)
    requires a.speakerTag == b.speakerTag
    ensures Build([[a], [b]])
      == [Segment(a.speakerTag, a.startTime, a.endTime, [a.text]),
          Segment(a.speakerTag, a.startTime, b.endTime, [a.text, b.text])]
    ensures SegmentWords(Build([[a], [b]])) == [a.text, a.text, b.text]
    ensures BuildFlushOnce([[a], [b]]) == [Segment(a.speakerTag, a.startTime, b.endTime, [a.text, b.text])]
  {
    TwoResults(a, b);
    TwoResultsFlushOnce(a, b);
    assert [a.text] + [b.text] == [a.text, b.text];
    var first := Flush(Step(Init(), a), a.endTime);
    assert first == State(Some(a.speakerTag), a.startTime, [a.text], [Segment(a.speakerTag, a.startTime, a.endTime, [a.text])]);
    SegmentWordsTwo(Segment(a.speakerTag, a.startTime, a.endTime, [a.text]),
      Segment(a.speakerTag, a.startTime, b.endTime, [a.text, b.text]));
  }

  /**
   * Two results, one word each, different speakers: the first word's
   * segment is emitted a second time before the second speaker's.
   */
  lemma TwoResultsSpeakerChange(a: Word, b: Word)
    requires a.speakerTag != b.speakerTag
    ensures Build([[a], [b]])
      == [Segment(a.speakerTag, a.startTime, a.endTime, [a.text]),
          Segment(a.speakerTag, a.startTime, b.startTime, [a.text]),
          Segment(b.speakerTag, b.startTime, b.endTime, [b.text])]
    ensures BuildFlushOnce([[a], [b]])
      == [Segment(a.speakerTag, a.startTime, b.startTime, [a.text]),
          Segment(b.speakerTag, b.startTime, b.endTime, [b.text])]
  {
    TwoResults(a, b);
    TwoResultsFlushOnce(a, b);
  }

  /** Every segment ends no earlier than it starts. */
  predicate OrderedSegments(segs: seq<Segment>) {
    forall k :: 0 <= k < |segs| ==> segs[k].startTime <= segs[k].endTime
  }

  lemma TimeOrderedSplit(a: seq<Word>, b: seq<Word>)
    requires TimeOrdered(a + b)
    ensures TimeOrdered(a) && TimeOrdered(b)
    ensures a != [] && b != [] ==> a[|a| - 1].startTime <= b[0].startTime
  {
    var ab := a + b;
    assert forall i :: 0 <= i < |a| ==> a[i] == ab[i];
    assert forall i :: 0 <= i < |b| ==> b[i] == ab[|a| + i];
    if a != [] && b != [] {
      assert ab[|a|] == b[0];
    }
  }

  /** Segment starts never decrease. */
  predicate StartsSorted(segs: seq<Segment>) {
    forall k :: 0 < k < |segs| ==> segs[k - 1].startTime <= segs[k].startTime
  }

  /**
   * The invariant of the builder on time-ordered words: every segment ends no
   * earlier than it starts, starts never decrease, nothing is emitted before
   * a speaker is set, and the open segment starts no earlier than the last one
   * emitted.
   */
  predicate OrderedState(s: State) {
    && OrderedSegments(s.out)
    && StartsSorted(s.out)
    && (s.current.None? ==> s.out == [])
    && (s.current.Some? && s.out != [] ==> s.out[|s.out| - 1].startTime <= s.start)
  }

  lemma StepKeepsOrder(s: State, w: Word)
    requires OrderedState(s) && (s.current.Some? ==> s.start <= w.startTime)
    ensures OrderedState(Step(s, w)) && Step(s, w).start <= w.startTime
  {
  }

  /**
   * On time-ordered words the word loop keeps the invariant, and the open
   * segment starts no later than the latest word.
   */
  lemma {:induction false} StepAllKeepsOrder(s: State, ws: seq<Word>)
    requires ws != [] && TimeOrdered(ws) && OrderedState(s)
    requires s.current.Some? ==> s.start <= ws[0].startTime
    ensures var t := StepAll(s, ws);
      t.current.Some? && t.start <= ws[|ws| - 1].startTime && OrderedState(t)
    decreases |ws|
  {
    var init, w := ws[..|ws| - 1], ws[|ws| - 1];
    if init == [] {
      assert StepAll(s, init) == s;
    } else {
      assert TimeOrdered(init);
      assert init[0] == ws[0];
      StepAllKeepsOrder(s, init);
      assert init[|init| - 1] == ws[|ws| - 2];
    }
    StepKeepsOrder(StepAll(s, init), w);
  }

  lemma FlushKeepsOrder(s: State, endTime: nat)
    requires OrderedState(s) && (s.current.Some? ==> s.start <= endTime)
    ensures OrderedState(Flush(s, endTime))
  {
  }

  /** One result with time-ordered words keeps the invariant. */
  lemma ResultKeepsOrder(s: State, ws: seq<Word>)
    requires ws != [] && TimeOrdered(ws) && OrderedState(s)
    requires s.current.Some? ==> s.start <= ws[0].startTime
    ensures var t := ProcessResult(s, ws);
      t.current.Some? && t.start <= ws[|ws| - 1].startTime && OrderedState(t)
  {
    StepAllKeepsOrder(s, ws);
    FlushKeepsOrder(StepAll(s, ws), ws[|ws| - 1].endTime);
  }

  lemma ConcatLast(front: seq<seq<Word>>, ws: seq<Word>)
    requires ws != []
    ensures var all := Concat(front + [ws]); all != [] && all[|all| - 1] == ws[|ws| - 1]
  {
    ConcatSnoc(front, ws);
  }

  /**
   * When the words of all results, taken in order, are time-ordered, every
   * segment the builder emits ends no earlier than it starts and no segment
   * starts before the one emitted before it, the re-emitted ones included.
   */
  lemma {:induction false} SegmentTimesOrdered(rs: seq<seq<Word>>)
    requires TimeOrdered(Concat(rs))
    ensures var segs := Build(rs);
      && (forall k :: 0 <= k < |segs| ==> segs[k].startTime <= segs[k].endTime)
      && (forall k :: 0 < k < |segs| ==> segs[k - 1].startTime <= segs[k].startTime)
    ensures OrderedState(ProcessAll(rs))
    ensures var s := ProcessAll(rs); var ws := Concat(rs);
      s.current.Some? ==> ws != [] && s.start <= ws[|ws| - 1].startTime
    decreases |rs|
  {
    if rs != [] {
      var front: seq<seq<Word>>, ws: seq<Word> := rs[..|rs| - 1], rs[|rs| - 1];
      assert rs == front + [ws];
      ConcatSnoc(front, ws);
      TimeOrderedSplit(Concat(front), ws);
      SegmentTimesOrdered(front);
      ProcessAllSnoc(front, ws);
      if ws != [] {
        ConcatLast(front, ws);
        ResultKeepsOrder(ProcessAll(front), ws);
      }
    }
  }
}
