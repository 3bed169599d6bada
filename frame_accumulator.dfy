/** The read loop of the telemetry reader: stripped lines from the serial port are
    gathered into a buffer that only a start-marker line clears, and every line that
    reports illuminance triggers a parse of the whole buffer. */
module FrameAccumulator {
  import opened PyStr
  import opened FrameParser

  /** A line starting with this clears the buffer before it is appended. */
  const StartMarker := "===="
  /** A line containing this triggers a parse attempt. */
  const CompletionMarker := "lux)"

  /** The buffer after one more line. */
  function Step(buffer: string, line: string): string {
    (if StartsWith(line, StartMarker) then "" else buffer) + line + "\n"
  }

  /** The buffer after a run of lines, starting from the empty buffer. */
  function BufferAfter(lines: seq<string>): string {
    if lines == [] then ""
    else Step(BufferAfter(lines[..|lines| - 1]), lines[|lines| - 1])
  }

  /** Each line followed by a newline, in order. */
  function Lines(lines: seq<string>): string {
    if lines == [] then ""
    else Lines(lines[..|lines| - 1]) + lines[|lines| - 1] + "\n"
  }

  /** Where the current frame begins: the last start-marker line, or the first line
      when no line is a start marker. */
  function FrameStart(lines: seq<string>): (k: nat)
    ensures k == 0 || (k < |lines| && StartsWith(lines[k], StartMarker))
    ensures forall j :: k < j < |lines| ==> !StartsWith(lines[j], StartMarker)
  {
    if lines == [] then 0
    else if StartsWith(lines[|lines| - 1], StartMarker) then |lines| - 1
    else FrameStart(lines[..|lines| - 1])
  }

  /** The buffer holds exactly the lines from the last start marker on, in order:
      everything before that marker has been discarded, nothing after it has. */
  lemma {:induction false} BufferIsCurrentFrame(lines: seq<string>)
    ensures BufferAfter(lines) == Lines(lines[FrameStart(lines)..])
  {
    if lines != [] {
      var init, last := lines[..|lines| - 1], lines[|lines| - 1];
      if StartsWith(last, StartMarker) {
        assert lines[|lines| - 1..] == [last];
        assert Lines([last]) == Lines([]) + last + "\n";
      } else {
        BufferIsCurrentFrame(init);
        var k := FrameStart(init);
        assert lines[k..][..|lines[k..]| - 1] == init[k..];
      }
    }
  }

  /** What feeding one line gives: nothing, or the result of parsing the buffer. */
  datatype FeedOutcome = Building | Attempted(result: Result<Reading>)

  /** The accumulator of `read_serial`, whose one piece of state is the buffer. */
  class Accumulator {
    var buffer: string

    constructor ()
      ensures buffer == ""
    {
      buffer := "";
    }

    /** Takes one stripped line. The buffer is cleared by a start marker only, never
        by a parse attempt, whether that attempt succeeds or fails. */
    method Feed(line: string, toDecimal: string -> Option<real>) returns (outcome: FeedOutcome)
      modifies this
      ensures StartsWith(line, StartMarker) ==> buffer == line + "\n"
      ensures !StartsWith(line, StartMarker) ==> buffer == old(buffer) + line + "\n"
      ensures buffer == Step(old(buffer), line)
      ensures outcome.Attempted? <==> Contains(line, CompletionMarker)
      ensures outcome.Attempted? ==> outcome.result == ParseFrame(buffer, toDecimal)
    {
      if StartsWith(line, StartMarker) {
        buffer := "";
      }
      buffer := buffer + line + "\n";
      if Contains(line, CompletionMarker) {
        outcome := Attempted(ParseFrame(buffer, toDecimal));
      } else {
        outcome := Building;
      }
    }
  }

  /** The results of the parse attempts made over a run of lines, in order: each `Ok`
      is a reading handed to storage, each `Err` a logged failure. */
  function Attempts(lines: seq<string>, toDecimal: string -> Option<real>): seq<Result<Reading>> {
    if lines == [] then []
    else
      Attempts(lines[..|lines| - 1], toDecimal) +
      (if Contains(lines[|lines| - 1], CompletionMarker)
       then [ParseFrame(BufferAfter(lines), toDecimal)] else [])
  }

  /** The number of lines that contain the completion marker. */
  function CompletionLines(lines: seq<string>): nat {
    if lines == [] then 0
    else CompletionLines(lines[..|lines| - 1]) +
         (if Contains(lines[|lines| - 1], CompletionMarker) then 1 else 0)
  }

  /** `read_serial` over a finite stretch of the line stream. */
  method ReadSerial(lines: seq<string>, toDecimal: string -> Option<real>)
    returns (attempts: seq<Result<Reading>>)
    ensures attempts == Attempts(lines, toDecimal)
  {
    var acc := new Accumulator();
    attempts := [];
    var i := 0;
    while i < |lines|
      invariant 0 <= i <= |lines|
      invariant acc.buffer == BufferAfter(lines[..i])
      invariant attempts == Attempts(lines[..i], toDecimal)
    {
      var outcome := acc.Feed(lines[i], toDecimal);
      assert lines[..i + 1][..i] == lines[..i];
      if outcome.Attempted? {
        attempts := attempts + [outcome.result];
      }
      i := i + 1;
    }
    assert lines[..|lines|] == lines;
  }

  /** One parse attempt per line that contains the completion marker, and no other. */
  lemma {:induction false} OneAttemptPerCompletionLine(lines: seq<string>, toDecimal: string -> Option<real>)
    ensures |Attempts(lines, toDecimal)| == CompletionLines(lines)
  {
    if lines != [] {
      OneAttemptPerCompletionLine(lines[..|lines| - 1], toDecimal);
    }
  }

  /** A well-formed frame: it opens with a start marker, no later line is one, and only
      its last line carries the completion marker. */
  predicate WellFormedFrame(frame: seq<string>) {
    |frame| > 0 && StartsWith(frame[0], StartMarker) &&
    (forall k :: 0 < k < |frame| ==> !StartsWith(frame[k], StartMarker)) &&
    (forall k :: 0 <= k < |frame| - 1 ==> !Contains(frame[k], CompletionMarker)) &&
    Contains(frame[|frame| - 1], CompletionMarker)
  }

  /** Feeding the first `j` lines of a well-formed frame after any history rebuilds
      the buffer from the frame alone. */
  lemma {:induction false} FrameBuffer(history: seq<string>, frame: seq<string>, j: nat)
    requires WellFormedFrame(frame) && 1 <= j <= |frame|
    ensures BufferAfter(history + frame[..j]) == Lines(frame[..j])
  {
    var line := frame[j - 1];
    assert history + frame[..j] == (history + frame[..j - 1]) + [line];
    assert frame[..j] == frame[..j - 1] + [line];
    BufferAfterSnoc(history + frame[..j - 1], line);
    LinesSnoc(frame[..j - 1], line);
    if j == 1 {
      assert StartsWith(line, StartMarker);
      assert frame[..0] == [];
    } else {
      FrameBuffer(history, frame, j - 1);
      assert !StartsWith(line, StartMarker);
    }
  }

  /** ... and makes no parse attempt before the frame's last line, then exactly one. */
  lemma {:induction false} FramePrefix(history: seq<string>, frame: seq<string>, j: nat,
                                       toDecimal: string -> Option<real>)
    requires WellFormedFrame(frame) && 1 <= j <= |frame|
    ensures Attempts(history + frame[..j], toDecimal) ==
            Attempts(history, toDecimal) +
            (if j == |frame| then [ParseFrame(Lines(frame), toDecimal)] else [])
  {
    var prev, line := history + frame[..j - 1], frame[j - 1];
    assert history + frame[..j] == prev + [line];
    AttemptsSnoc(prev, line, toDecimal);
    assert Attempts(prev, toDecimal) == Attempts(history, toDecimal) by {
      if j == 1 {
        assert prev == history;
      } else {
        FramePrefix(history, frame, j - 1, toDecimal);
      }
    }
    if j == |frame| {
      FrameBuffer(history, frame, j);
      assert frame[..j] == frame;
    } else {
      assert !Contains(line, CompletionMarker);
      assert Attempts(prev, toDecimal) + [] == Attempts(prev, toDecimal);
    }
  }

  lemma AttemptsSnoc(lines: seq<string>, line: string, toDecimal: string -> Option<real>)
    ensures Attempts(lines + [line], toDecimal) ==
            Attempts(lines, toDecimal) +
            (if Contains(line, CompletionMarker)
             then [ParseFrame(BufferAfter(lines + [line]), toDecimal)] else [])
  {
    assert (lines + [line])[..|lines|] == lines;
  }

  /** A well-formed frame fed after any history yields exactly one parse attempt, made
      on exactly that frame's lines in their original order. */
  lemma OneFrameOneAttempt(history: seq<string>, frame: seq<string>, toDecimal: string -> Option<real>)
    requires WellFormedFrame(frame)
    ensures Attempts(history + frame, toDecimal) ==
            Attempts(history, toDecimal) + [ParseFrame(Lines(frame), toDecimal)]
  {
    FramePrefix(history, frame, |frame|, toDecimal);
    assert frame[..|frame|] == frame;
  }

  /** Between start markers the buffer only grows: lines without a start marker are
      appended to whatever was there, a completed frame included. */
  lemma {:induction false} BufferGrows(lines: seq<string>, more: seq<string>)
    requires forall k :: 0 <= k < |more| ==> !StartsWith(more[k], StartMarker)
    ensures BufferAfter(lines + more) == BufferAfter(lines) + Lines(more)
  {
    if more == [] {
      assert lines + more == lines;
    } else {
      var init, last := more[..|more| - 1], more[|more| - 1];
      assert !StartsWith(last, StartMarker);
      BufferGrows(lines, init);
      assert lines + more == (lines + init) + [last];
      assert more == init + [last];
      BufferAfterSnoc(lines + init, last);
      LinesSnoc(init, last);
      AppendLine(BufferAfter(lines), Lines(init), last);
    }
  }

  /** Regrouping the concatenations in `BufferGrows` as a lemma of its own keeps that
      proof's search small. */
  lemma AppendLine(a: string, b: string, line: string)
    ensures a + b + line + "\n" == a + (b + line + "\n")
  {
  }

  lemma BufferAfterSnoc(lines: seq<string>, line: string)
    ensures BufferAfter(lines + [line]) == Step(BufferAfter(lines), line)
  {
    assert (lines + [line])[..|lines|] == lines;
  }

  lemma LinesSnoc(lines: seq<string>, line: string)
    ensures Lines(lines + [line]) == Lines(lines) + line + "\n"
  {
    assert (lines + [line])[..|lines|] == lines;
  }

  /** Without a new start marker, a second report parses to the values of the first:
      once every field of the buffered report is closed, later lines change nothing. */
  lemma SecondReportRepeatsFirst(lines: seq<string>, more: seq<string>,
                                 toDecimal: string -> Option<real>)
    requires lines != [] && ReportClosed(BufferAfter(lines))
    requires forall k :: 0 <= k < |more| ==> !StartsWith(more[k], StartMarker)
    ensures ParseFrame(BufferAfter(lines + more), toDecimal) == ParseFrame(BufferAfter(lines), toDecimal)
  {
    BufferGrows(lines, more);
    FirstReportWins(BufferAfter(lines), Lines(more), toDecimal);
  }
}
