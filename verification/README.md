# Speaker segments and timestamps of the diarization script

This project models the computational core of the speaker-diarization
transcription script: the loop of `transcribe_with_diarization` that turns
the speech-recognition response into speaker segments, and
`format_timestamp`, which renders a word offset as `HH:MM:SS.mmm`.

- A recognition result is the word list of its first alternative. A word has
  its text, start and end offsets, and speaker tag (`Diarization.Word`).
- The loop is an imperative method, `Diarization.CollectSegments`. It keeps
  the script's variables (`current_speaker`, `segment_start`,
  `current_text`) and appends one dictionary (`SegmentRecord`) per emitted
  segment. `Diarization.BuildSegments` is that loop with the script's
  dictionary construction.
- Each pass of the loop is also written as a function on a `State`
  (`Step`, `StepAll`, `Flush`, `ProcessResult`, `ProcessAll`). The method is
  proved to compute `RenderAll(Build(results))`, and the properties are lemmas
  about `Build`.
- The reference definition for one result is the split of its words into
  maximal runs of one speaker (`DiarizationProperties.IsRunSplit`, `Runs`).
  One segment is emitted per run.
- `format_timestamp` is modelled on Python's `str(timedelta)` (days, `H:MM:SS`
  and an optional `.ffffff`), followed by the script's two rewrites. These are
  the fraction fix-up (`.000` appended, or the last three digits dropped) and
  the padding of a one-character hour field. Offsets are whole microseconds,
  which is the resolution `timedelta` keeps.
- `ParseTimestamp` reads `HH:MM:SS.mmm` back to milliseconds. It is the
  inverse used for the round trip under one day.
- `Decimal` holds `str(int)` and `"%02d"`-style fields together with their
  parser.

The script closes a segment at the start of the word that changes the
speaker. The segment open after a result's last word is closed at that
word's end. The speaker, start and text variables are never reset between
results.

Two consequences of following the code shape the model:

- The script emits the open segment after every result that has words. A
  builder with one emission after all results (`MultipleResults.BuildFlushOnce`)
  would emit every word once. The two agree exactly when at most one result
  has words (`MultipleResults.FlushOnceExactly`); otherwise the script emits
  one extra segment per further result with words
  (`MultipleResults.FlushOnceCount`).
- The script validates no offsets, so the model has no precondition and no
  error case for them. Time order is a hypothesis of the lemmas that derive
  `start <= end` and non-decreasing starts for the segments
  (`SingleResultTimes`, `SegmentTimesOrdered`).

## Model

| member | source | states |
|---|---|---|
| `Diarization.CollectSegments` | notebooks/exploratory/pys/speech-to-text-speaker-diarization.py:43-85 | The nested loops over results and words, with their invariants, emit exactly `render` of each segment of `Build(results)`, in order. |
| `Diarization.BuildSegments` | notebooks/exploratory/pys/speech-to-text-speaker-diarization.py:43-87 | The list returned is the dictionaries of `Build(results)`: `Speaker <tag>`, both offsets formatted, and the text joined with spaces. |
| `Diarization.Step` | notebooks/exploratory/pys/speech-to-text-speaker-diarization.py:61-76 | After a word the open speaker is the word's tag and the open text ends with its text. Output is only appended to, and one segment is closed exactly when a speaker was set and the tag differs from it. |
| `Diarization.StepAll` | notebooks/exploratory/pys/speech-to-text-speaker-diarization.py:55-76 | The word loop only appends to the output. After a non-empty word list the open speaker is the last word's and the open text ends with its text. |
| `Diarization.Flush` | notebooks/exploratory/pys/speech-to-text-speaker-diarization.py:78-85 | The emission changes nothing but the output. It appends at most one segment, and exactly one when there is open text and a speaker. |
| `Diarization.ProcessResult` | notebooks/exploratory/pys/speech-to-text-speaker-diarization.py:48-85 | A result without words changes nothing. A result with words leaves its last speaker open and appends at least one segment, the last of which has that speaker and ends at the last word's end. |
| `Diarization.ProcessAll` | notebooks/exploratory/pys/speech-to-text-speaker-diarization.py:43-87 | Open text implies a speaker is set. No speaker is set exactly when nothing has been emitted. |
| `MultipleResults.SegmentsExactlyWithWords` | notebooks/exploratory/pys/speech-to-text-speaker-diarization.py:43-87 | The returned list is empty if and only if no result has words. |
| `Diarization.Join` | notebooks/exploratory/pys/speech-to-text-speaker-diarization.py:68 | The joined text starts with the first word (with `JoinSplit`, splitting it on spaces gives the words back). |
| `Diarization.Render` | notebooks/exploratory/pys/speech-to-text-speaker-diarization.py:64-69 | The speaker field is `Speaker ` followed by `str` of the segment's tag, which reads back as the tag. |
| `Decimal.IntToString` | notebooks/exploratory/pys/speech-to-text-speaker-diarization.py:65 | `str` of an integer: `-` first exactly when it is negative, `0` exactly for zero, and otherwise no leading zero, so the form is unique (with `IntToStringRoundTrip`, it parses back). |
| `MultipleResults.EmptyResultsSkipped` | notebooks/exploratory/pys/speech-to-text-speaker-diarization.py:48-51 | Removing the results without words changes neither the final state nor the output. |
| `MultipleResults.NoWordsNoSegments` | notebooks/exploratory/pys/speech-to-text-speaker-diarization.py:43-51 | When no result has words, the state stays initial and the returned list is empty. |
| `DiarizationProperties.RunsSplit` | notebooks/exploratory/pys/speech-to-text-speaker-diarization.py:55-76 | `Runs(ws)` concatenates back to `ws`. Each run has one speaker, and neighbouring runs have different speakers. |
| `DiarizationProperties.RunSplitUnique` | notebooks/exploratory/pys/speech-to-text-speaker-diarization.py:55-76 | Two splits into maximal same-speaker runs are equal, so the run split is a definition independent of the loop. |
| `DiarizationProperties.StepAllRuns` | notebooks/exploratory/pys/speech-to-text-speaker-diarization.py:55-76 | After the word loop from the initial state, every run but the last has been closed at the next run's start. The last run is open, with its speaker, its start and its texts. |
| `DiarizationProperties.SingleResult` | notebooks/exploratory/pys/speech-to-text-speaker-diarization.py:55-85 | For one result and any split into maximal runs, there is exactly one segment per run. Segment k starts at run k's first word and ends at run k+1's start, and the last segment ends at the last word's end. |
| `DiarizationProperties.SingleResultSegments` | notebooks/exploratory/pys/speech-to-text-speaker-diarization.py:55-85 | For one non-empty result: the first segment starts at the first word and the last ends at the last word's end. Adjacent segments have different speakers and meet without gap or overlap, and every word's text appears exactly once, in order. |
| `DiarizationProperties.SingleResultTimes` | notebooks/exploratory/pys/speech-to-text-speaker-diarization.py:55-85 | For one result whose words are time-ordered, every segment ends no earlier than it starts, and segment starts never decrease. |
| `DiarizationProperties.RunSegmentsCover` | notebooks/exploratory/pys/speech-to-text-speaker-diarization.py:61-76 | The segments built from a run split hold the texts of all the words, each once and in order. |
| `MultipleResults.RepeatedOnSpeakerChange` | notebooks/exploratory/pys/speech-to-text-speaker-diarization.py:61-69 | When a result begins with a speaker other than the last segment's, the first new segment repeats that segment's speaker, start and text, ending at the new word's start. |
| `MultipleResults.StepAllKeepsOpen` | notebooks/exploratory/pys/speech-to-text-speaker-diarization.py:61-76 | The word loop only appends. It either keeps the open speaker and start while extending the text, or first closes a segment with the open speaker and start whose text extends the open text. |
| `MultipleResults.FlushPerResult` | notebooks/exploratory/pys/speech-to-text-speaker-diarization.py:78-85 | Each result with words extends the output. The new last segment has the last word's speaker, ends at its end and finishes with its text. |
| `MultipleResults.OpenIsLastSegment` | notebooks/exploratory/pys/speech-to-text-speaker-diarization.py:78-85 | Once any segment has been emitted, the open speaker, start and text are those of the last segment emitted, because the variables are not reset. |
| `MultipleResults.CarryOver` | notebooks/exploratory/pys/speech-to-text-speaker-diarization.py:72-85 | The first segment emitted for a later result has the previous last segment's speaker and start, and its text extends that segment's text. |
| `MultipleResults.SegmentTimesOrdered` | notebooks/exploratory/pys/speech-to-text-speaker-diarization.py:48-85 | When the words of all results, taken in order, are time-ordered, every segment ends no earlier than it starts and no segment starts before the one emitted before it, including those re-emitted across results. |
| `MultipleResults.TwoResultsSameSpeaker` | notebooks/exploratory/pys/speech-to-text-speaker-diarization.py:48-85 | Two one-word results of one speaker give two segments, the second repeating the first word. A single flush gives one segment. |
| `MultipleResults.TwoResultsSpeakerChange` | notebooks/exploratory/pys/speech-to-text-speaker-diarization.py:48-85 | Two one-word results of two speakers give three segments, the first word's twice. A single flush gives two. |
| `MultipleResults.FlushOnceEachWordOnce` | notebooks/exploratory/pys/speech-to-text-speaker-diarization.py:78-85 | With one flush after all results, every word's text appears in the segments exactly once, in order. |
| `MultipleResults.FlushOnceAgrees` | notebooks/exploratory/pys/speech-to-text-speaker-diarization.py:48-87 | When at most one result has words, the script's output equals the single-flush output. |
| `MultipleResults.FlushOnceCount` | notebooks/exploratory/pys/speech-to-text-speaker-diarization.py:48-87 | When there are words, the script emits as many segments as the single-emission builder plus one for each result with words beyond the first. |
| `MultipleResults.FlushOnceExactly` | notebooks/exploratory/pys/speech-to-text-speaker-diarization.py:48-87 | The script's output equals the single-emission output if and only if at most one result has words. |
| `RecordProperties.SpeakerLabels` | notebooks/exploratory/pys/speech-to-text-speaker-diarization.py:65 | Every dictionary's speaker field is `Speaker ` followed by `str` of its segment's tag, a decimal that reads back as the tag. |
| `RecordProperties.JoinSplit` | notebooks/exploratory/pys/speech-to-text-speaker-diarization.py:68 | Words without spaces, joined with single spaces, split on spaces back into the same words. |
| `RecordProperties.ThreeWordExample` | notebooks/exploratory/pys/speech-to-text-speaker-diarization.py:55-85 | `hi`, `there` by speaker 1 and `ok` by speaker 2 give two segments. The first reads `hi there` and ends where `ok` starts. |
| `Decimal.IntToStringRoundTrip` | notebooks/exploratory/pys/speech-to-text-speaker-diarization.py:81 | `str` of any integer tag parses back to that integer. |
| `Decimal.TwoDigitField` | notebooks/exploratory/pys/speech-to-text-speaker-diarization.py:100-101 | A one-digit hour with `0` prepended, and a two-digit hour as it stands, is the two-digit field. |
| `Decimal.SixDigitsTruncated` | notebooks/exploratory/pys/speech-to-text-speaker-diarization.py:98 | The first three of six microsecond digits are the milliseconds, truncated. |
| `Timestamp.FromMicros` | notebooks/exploratory/pys/speech-to-text-speaker-diarization.py:93 | `timedelta` normalisation: seconds within the day and microseconds within the second, recombining to the duration. |
| `Timestamp.TimedeltaStr` | notebooks/exploratory/pys/speech-to-text-speaker-diarization.py:93-95 | `str(timedelta)` contains a `.` exactly when the microseconds are not zero. |
| `Timestamp.FixFractionParts` | notebooks/exploratory/pys/speech-to-text-speaker-diarization.py:95-98 | On any `str(timedelta)` the fraction fix-up gives the hour field, `:MM:SS`, a `.` and exactly three millisecond digits, truncated. |
| `Timestamp.FixFractionCut` | notebooks/exploratory/pys/speech-to-text-speaker-diarization.py:97-98 | A six-digit fraction keeps its first three digits. |
| `Timestamp.PadHour` | notebooks/exploratory/pys/speech-to-text-speaker-diarization.py:100-101 | A non-empty field before the first colon comes out with at least two characters, and a field of any length other than one is left alone. |
| `Timestamp.FormatParts` | notebooks/exploratory/pys/speech-to-text-speaker-diarization.py:89-102 | For any duration, the result is the padded hour field, `:MM:SS`, a `.` and three millisecond digits. |
| `Timestamp.FormatMilliseconds` | notebooks/exploratory/pys/speech-to-text-speaker-diarization.py:93-98 | The last four characters are `.` and the milliseconds truncated to three digits. |
| `Timestamp.FormatWholeSeconds` | notebooks/exploratory/pys/speech-to-text-speaker-diarization.py:95-96 | A whole number of seconds ends in `.000`. |
| `Timestamp.HourFieldPadded` | notebooks/exploratory/pys/speech-to-text-speaker-diarization.py:100-101 | The field before the first colon never has fewer than two characters. |
| `Timestamp.FormatUnderOneDay` | notebooks/exploratory/pys/speech-to-text-speaker-diarization.py:89-102 | Below one day the result is the clock reading: two-digit hours, minutes and seconds and three-digit milliseconds of the duration. |
| `Timestamp.ShapeUnderOneDay` | notebooks/exploratory/pys/speech-to-text-speaker-diarization.py:91 | Below one day the result has the documented `HH:MM:SS.mmm` shape. |
| `Timestamp.FormatThenParse` | notebooks/exploratory/pys/speech-to-text-speaker-diarization.py:89-102 | Below one day, reading the result back gives the duration in whole milliseconds. |
| `Timestamp.FormatFromOneDay` | notebooks/exploratory/pys/speech-to-text-speaker-diarization.py:93 | From one day on, the `D day(s), ` prefix of `str(timedelta)` survives, and the result is not of the `HH:MM:SS.mmm` shape. |
| `Timestamp.FormatExample` | notebooks/exploratory/pys/speech-to-text-speaker-diarization.py:89-102 | 3725.4567 seconds format as `01:02:05.456`. |

## Left out

- The recognition request (lines 16-40) is left out. The client, the audio
  and the configuration are external calls, so the model takes the response's
  results as its input.
- A recognition result is modelled as the word list of its first
  alternative. A result with no alternatives, for which the script fails
  with an index error, is not modelled.
- Offsets are whole microseconds, not the floating-point seconds of
  `total_seconds()` (lines 56-57). The rounding of a float passed to
  `timedelta(seconds=...)` is not modelled.
- Offsets are non-negative, so the negative `timedelta` rendering
  (`-1 day, ...`) is out of the model's domain.
- `segment_start` starts as `None`. The model represents it as `0`, which is
  never read before a speaker is set, because the open text is non-empty
  only once a speaker is set (a loop invariant of `CollectSegments`).
- The example block under `__main__` (lines 105-120) is left out, because it
  prints and catches exceptions.
- The script's other files, and the other scripts of the repository, are not
  part of this model.

## Findings

| source | as written | input that shows it | evidently intended | confidence | as-written member | corrected member |
|---|---|---|---|---|---|---|
| notebooks/exploratory/pys/speech-to-text-speaker-diarization.py:78-85 | The final-segment flush sits inside the loop over results, and the speaker, start and text variables are not reset after it. Every result with words emits the open segment, and the next result re-emits that text in a new segment. | Two results of one word each by the same speaker give two segments with the first word's text twice. With different speakers they give three segments, the first word's repeated. | One emission after all results, so that every word appears in exactly one segment, as `FlushOnceEachWordOnce` proves of the corrected definition. | not executed; medium | `MultipleResults.TwoResultsSameSpeaker`, `MultipleResults.TwoResultsSpeakerChange` | `MultipleResults.BuildFlushOnce` (`FlushOnceEachWordOnce`) |

`Diarization.BuildSegments` keeps the as-written behaviour, since it models
the script itself. `MultipleResults.FlushOnceExactly` shows that the two
definitions agree exactly when at most one result has words.
