/**
 * The dictionaries the segment builder returns: the speaker label, and the
 * text joined with single spaces.
 */
module RecordProperties {
  import opened Wrappers
  import opened Decimal
  import opened Diarization
  import opened DiarizationProperties
  import opened MultipleResults

  /** Every dictionary's speaker field is `Speaker ` followed by `str` of its segment's tag. */
  lemma SpeakerLabels(segs: seq<Segment>)
    ensures var records := RenderAll(segs);
      forall k :: 0 <= k < |records| ==>
        && |records[k].speaker| > 8
        && records[k].speaker[..8] == "Speaker "
        && ParseInt(records[k].speaker[8..]) == Some(segs[k].speaker)
        && records[k].speaker[8..] == IntToString(segs[k].speaker)
  {
    var records := RenderAll(segs);
    forall k | 0 <= k < |records|
      ensures |records[k].speaker| > 8
      ensures records[k].speaker[..8] == "Speaker "
      ensures ParseInt(records[k].speaker[8..]) == Some(segs[k].speaker)
      ensures records[k].speaker[8..] == IntToString(segs[k].speaker)
    {
      assert records[k] == Render(segs[k]);
    }
  }

  predicate NoSpace(w: string) {
    forall i :: 0 <= i < |w| ==> w[i] != ' '
  }

  /** `s.split(' ')`: the pieces between single spaces; the empty string gives one empty piece. */
  function SplitSpaces(s: string): (parts: seq<string>)
    ensures |parts| >= 1
    decreases |s|
  {
    if s == [] then [""]
    else
      var parts := SplitSpaces(s[..|s| - 1]);
      if s[|s| - 1] == ' ' then parts + [""]
      else parts[..|parts| - 1] + [parts[|parts| - 1] + [s[|s| - 1]]]
  }

  /** `p` with `w` appended to its last piece. */
  function ExtendLast(p: seq<string>, w: string): (q: seq<string>)
    requires |p| >= 1
    ensures |q| == |p|
  {
    p[..|p| - 1] + [p[|p| - 1] + w]
  }

  lemma ExtendLastTwice(p: seq<string>, w: string, c: char)
    requires |p| >= 1
    ensures ExtendLast(ExtendLast(p, w), [c]) == ExtendLast(p, w + [c])
  {
    var q := ExtendLast(p, w);
    assert q[..|q| - 1] == p[..|p| - 1];
    assert q[|q| - 1] == p[|p| - 1] + w;
    assert (p[|p| - 1] + w) + [c] == p[|p| - 1] + (w + [c]);
  }

  lemma SplitChar(s: string, c: char)
    requires c != ' '
    ensures SplitSpaces(s + [c]) == ExtendLast(SplitSpaces(s), [c])
  {
    assert (s + [c])[..|s|] == s;
  }

  lemma SplitSpace(s: string)
    ensures SplitSpaces(s + " ") == SplitSpaces(s) + [""]
  {
    assert (s + " ")[..|s|] == s;
  }

  /** Characters other than spaces extend the last piece. */
  lemma {:induction false} SplitNoSpace(prefix: string, w: string)
    requires NoSpace(w)
    ensures SplitSpaces(prefix + w) == ExtendLast(SplitSpaces(prefix), w)
    decreases |w|
  {
    var p := SplitSpaces(prefix);
    if w == [] {
      assert prefix + w == prefix;
      assert p[|p| - 1] + w == p[|p| - 1];
      assert p == p[..|p| - 1] + [p[|p| - 1]];
    } else {
      var init: string, c: char := w[..|w| - 1], w[|w| - 1];
      assert c != ' ';
      assert init + [c] == w;
      SplitNoSpace(prefix, init);
      SplitChar(prefix + init, c);
      ExtendLastTwice(p, init, c);
      assert prefix + w == (prefix + init) + [c];
    }
  }

  lemma SplitAfterSpace(prefix: string, w: string)
    requires NoSpace(w)
    ensures SplitSpaces(prefix + " " + w) == SplitSpaces(prefix) + [w]
  {
    SplitSpace(prefix);
    SplitNoSpace(prefix + " ", w);
    var q := SplitSpaces(prefix) + [""];
    assert q[..|q| - 1] == SplitSpaces(prefix);
    assert q[|q| - 1] + w == w;
  }

  /** Words without spaces, joined with single spaces, split back into the same words. */
  lemma {:induction false} JoinSplit(words: seq<string>)
    requires words != [] && forall i :: 0 <= i < |words| ==> NoSpace(words[i])
    ensures SplitSpaces(Join(words)) == words
    decreases |words|
  {
    if |words| == 1 {
      SplitNoSpace([], words[0]);
      assert [] + words[0] == words[0];
    } else {
      var init := words[..|words| - 1];
      JoinSplit(init);
      SplitAfterSpace(Join(init), words[|words| - 1]);
      assert init + [words[|words| - 1]] == words;
    }
  }

  lemma JoinTwo(x: string, y: string)
    ensures Join([x, y]) == x + " " + y
  {
    assert [x, y][..1] == [x];
  }

  /**
   * Three words, the first two from speaker 1 and the last from speaker 2, at
   * 0, 0.5 and 1 second: the first segment runs from 0 to the third word's
   * start and reads `hi there`.
   */
  lemma ThreeWordExample(hi: Word, there: Word, ok: Word)
    requires hi == Word("hi", 0, 500000, 1) && there == Word("there", 500000, 1000000, 1)
    requires ok == Word("ok", 1000000, 1200000, 2)
    ensures Build([[hi, there, ok]])
      == [Segment(1, 0, 1000000, ["hi", "there"]), Segment(2, 1000000, 1200000, ["ok"])]
    ensures Join(Build([[hi, there, ok]])[0].words) == "hi there"
  {
    var ws := [hi, there, ok];
    BuildOne(ws);
    assert ws[..2] == [hi, there];
    StepAllTwo(Init(), hi, there);
    assert ["hi"] + ["there"] == ["hi", "there"];
    JoinTwo("hi", "there");
  }
}
