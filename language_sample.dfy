/** The sample of subtitle text that the `/detect-language/` endpoint sends to the
    language detector: the subtitle lines that are neither cue numbers nor timecodes,
    joined by spaces and cut to 500 characters. The detector itself (a remote
    chat-completion request) is not part of this model. */
module LanguageSample {
  import opened PyStrings
  import opened Filtering

  /** Longest sample handed to the detector, in characters. */
  const SampleLimit: nat := 500

  /** The lines of a subtitle file: the stripped content split at each "\n". */
  function Lines(srt: string): (lines: seq<string>)
    ensures forall k :: 0 <= k < |lines| ==> '\n' !in lines[k]
  {
    SplitAvoidsChar(Strip(srt), '\n');
    Split(Strip(srt), "\n")
  }

  /** A line is subtitle text unless it is empty, a timecode line (it contains "-->")
      or a cue number (it is all digits). Character by character: the line is not
      empty, "-->" starts at none of its positions, and some character is not a digit. */
  predicate IsTextLine(line: string)
    ensures IsTextLine(line) <==>
      && line != ""
      && (forall i: nat :: !OccursAt(line, "-->", i))
      && (exists i :: 0 <= i < |line| && !('0' <= line[i] <= '9'))
  {
    line != "" && !Contains(line, "-->") && !IsAsciiDigits(line)
  }

  /** The text lines of a subtitle file, in file order. */
  function TextLines(srt: string): (lines: seq<string>)
    ensures forall k :: 0 <= k < |lines| ==> IsTextLine(lines[k]) && '\n' !in lines[k]
  {
    Filter(IsTextLine, Lines(srt))
  }

  /** The sample: the first 500 characters of the space-joined text lines (all of them
      when they fit), on a single line. */
  function SampleText(srt: string): (sample: string)
    ensures |sample| <= SampleLimit
    ensures var all := Join(" ", TextLines(srt));
      && |sample| == (if |all| <= SampleLimit then |all| else SampleLimit)
      && sample == all[..|sample|]
    ensures '\n' !in sample
  {
    var all := Join(" ", TextLines(srt));
    JoinAvoidsChar(" ", TextLines(srt), '\n');
    Truncate(all, SampleLimit)
  }

  /** The text lines are exactly the lines that pass the test, each kept at its place
      in file order: the k-th text line is the line at the k-th kept position, the
      positions increase, and every passing line's position is among them. */
  lemma TextLinesExactly(srt: string)
    ensures forall line :: line in TextLines(srt) <==> line in Lines(srt) && IsTextLine(line)
    ensures |KeptPositions(IsTextLine, Lines(srt))| == |TextLines(srt)|
    ensures forall k :: 0 <= k < |TextLines(srt)| ==>
      KeptPositions(IsTextLine, Lines(srt))[k] < |Lines(srt)| &&
      TextLines(srt)[k] == Lines(srt)[KeptPositions(IsTextLine, Lines(srt))[k]]
    ensures forall k, l :: 0 <= k < l < |TextLines(srt)| ==>
      KeptPositions(IsTextLine, Lines(srt))[k] < KeptPositions(IsTextLine, Lines(srt))[l]
    ensures forall i :: 0 <= i < |Lines(srt)| && IsTextLine(Lines(srt)[i]) ==>
      i in KeptPositions(IsTextLine, Lines(srt))
  {
    forall line
      ensures line in TextLines(srt) <==> line in Lines(srt) && IsTextLine(line)
    {
      FilterMembership(IsTextLine, Lines(srt), line);
    }
    FilterPositions(IsTextLine, Lines(srt));
  }

  /** A timecode line never reaches the sample as a line of its own. */
  lemma TimecodeLineDropped(srt: string, start: string, end: string)
    ensures start + "-->" + end !in TextLines(srt)
  {
    var line := start + "-->" + end;
    assert OccursAt(line, "-->", |start|) by {
      assert line[|start|..|start| + 3] == "-->";
    }
    TextLinesExactly(srt);
  }
}
