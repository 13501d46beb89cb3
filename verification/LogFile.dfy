/** A log file as text that only grows, and the lines that `readLogLines` sees in it. */
module LogFile {
  import opened Collections

  /** `text.split("\n")`. */
  function Split(text: string): (r: seq<string>)
    ensures r != []
  {
    if text == "" then [""]
    else
      var rest := Split(text[1..]);
      if text[0] == '\n' then [""] + rest else [[text[0]] + rest[0]] + rest[1..]
  }

  /** `lines.filter((line) => line.length > 0)`. */
  function NonEmpty(lines: seq<string>): seq<string> {
    if lines == [] then [] else (if lines[0] == "" then [] else [lines[0]]) + NonEmpty(lines[1..])
  }

  function Lines(content: string): seq<string> {
    NonEmpty(Split(content))
  }

  /** `lines.slice(offset)`. */
  function Slice(lines: seq<string>, offset: nat): seq<string> {
    if offset >= |lines| then [] else lines[offset..]
  }

  datatype LogFileSnapshot = LogFileSnapshot(lines: seq<string>, lineCount: nat)

  /** A missing file reads like an empty one. */
  function ReadLogLines(content: string, offset: nat): LogFileSnapshot {
    LogFileSnapshot(Slice(Lines(content), offset), |Lines(content)|)
  }

  /** Nothing, or lines that are all ended. */
  predicate WholeLines(text: string) {
    text == "" || Last(text) == '\n'
  }

  lemma SplitStep(c: char, rest: string)
    ensures Split([c] + rest) == if c == '\n' then [""] + Split(rest) else [[c] + Split(rest)[0]] + Split(rest)[1..]
  {
    assert ([c] + rest)[1..] == rest;
  }

  lemma FirstReplaced(lines: seq<string>, first: string, others: seq<string>)
    requires lines != []
    ensures (lines + others)[0] == lines[0]
    ensures [first] + (lines + others)[1..] == ([first] + lines[1..]) + others
    ensures [first] + (lines + others) == ([first] + lines) + others
  {
  }

  lemma SplitStepConcat(c: char, rest: string, all: string, others: seq<string>)
    requires Split(all) == Split(rest) + others
    ensures Split([c] + all) == Split([c] + rest) + others
  {
    SplitStep(c, rest);
    SplitStep(c, all);
    FirstReplaced(Split(rest), if c == '\n' then "" else [c] + Split(rest)[0], others);
  }

  /** A line break separates the lines before it from those after it. */
  lemma {:induction false} SplitConcat(a: string, b: string)
    ensures Split(a + "\n" + b) == Split(a) + Split(b)
  {
    if a == "" {
      assert a + "\n" + b == ['\n'] + b;
      SplitStep('\n', b);
    } else {
      SplitConcat(a[1..], b);
      SplitStepConcat(a[0], a[1..], a[1..] + "\n" + b, Split(b));
      assert a == [a[0]] + a[1..] && a + "\n" + b == [a[0]] + (a[1..] + "\n" + b);
    }
  }

  lemma {:induction false} SplitNoBreak(line: string)
    requires '\n' !in line
    ensures Split(line) == [line]
  {
    if line != "" {
      SplitNoBreak(line[1..]);
      assert line == [line[0]] + line[1..];
    }
  }

  lemma {:induction false} NonEmptyConcat(a: seq<string>, b: seq<string>)
    ensures NonEmpty(a + b) == NonEmpty(a) + NonEmpty(b)
  {
    if a == [] {
      assert a + b == b;
    } else {
      assert (a + b)[1..] == a[1..] + b;
      NonEmptyConcat(a[1..], b);
    }
  }

  /** Text after whole lines adds its own lines and changes none. */
  lemma GrowthAddsLines(whole: string, text: string)
    requires WholeLines(whole)
    ensures Lines(whole + text) == Lines(whole) + Lines(text)
    ensures WholeLines(text) ==> WholeLines(whole + text)
  {
    if whole == "" {
      assert whole + text == text;
      EmptyHasNoLines();
    } else {
      var stem := whole[..|whole| - 1];
      assert whole == stem + "\n" + "" && whole + text == stem + "\n" + text;
      LinesAfterNewline(stem, "");
      LinesAfterNewline(stem, text);
      EmptyHasNoLines();
    }
    if text != "" {
      assert Last(whole + text) == Last(text);
    } else {
      assert whole + text == whole;
    }
  }

  lemma EmptyHasNoLines()
    ensures Lines("") == []
  {
    assert Split("") == [""];
    assert NonEmpty([""]) == [] + NonEmpty([""][1..]);
  }

  lemma LinesAfterNewline(a: string, b: string)
    ensures Lines(a + "\n" + b) == Lines(a) + Lines(b)
  {
    SplitConcat(a, b);
    NonEmptyConcat(Split(a), Split(b));
  }

  /** One line written with its newline is one line more. */
  lemma AppendedLine(whole: string, line: string)
    requires WholeLines(whole) && line != "" && '\n' !in line
    ensures Lines(whole + line + "\n") == Lines(whole) + [line]
  {
    assert whole + line + "\n" == whole + (line + "\n");
    GrowthAddsLines(whole, line + "\n");
    OneLine(line);
  }

  lemma OneLine(line: string)
    requires line != "" && '\n' !in line
    ensures Lines(line) == [line] && Lines(line + "\n") == [line]
  {
    assert line + "\n" + "" == line + "\n";
    LinesAfterNewline(line, "");
    EmptyHasNoLines();
    SplitNoBreak(line);
    assert NonEmpty([line]) == [line] + NonEmpty([line][1..]);
  }

  // ---------------------------------------------------------------------------
  // Text that breaks off inside a line
  // ---------------------------------------------------------------------------

  /** A read of `content` shows no line that `full` goes on with. */
  predicate EndsClean(content: string, full: string)
    requires content <= full
  {
    WholeLines(content) || |content| == |full| || full[|content|] == '\n'
  }

  lemma {:induction false} LastBreak(text: string) returns (whole: string, tail: string)
    ensures text == whole + tail && WholeLines(whole) && '\n' !in tail
    ensures tail == "" <==> WholeLines(text)
  {
    if WholeLines(text) {
      whole, tail := text, "";
    } else {
      whole, tail := LastBreak(text[..|text| - 1]);
      tail := tail + [Last(text)];
    }
  }

  /** A line that goes on is another line. */
  lemma ContinuedLine(tail: string, more: string)
    requires tail != "" && '\n' !in tail && more != ""
    ensures Lines(tail + more) != []
    ensures Lines(tail + more)[0] == tail <==> more[0] == '\n'
  {
    match IndexOf(more, '\n')
    case None => OneLine(tail + more);
    case Some(i) =>
      assert tail + more == (tail + more[..i]) + "\n" + more[i + 1..];
      EndedLine(tail + more[..i], more[i + 1..]);
  }

  lemma EndedLine(line: string, rest: string)
    requires line != "" && '\n' !in line
    ensures Lines(line + "\n" + rest) != [] && Lines(line + "\n" + rest)[0] == line
  {
    LinesAfterNewline(line, rest);
    OneLine(line);
  }

  lemma LastLineReplaced(before: seq<string>, last: string, after: seq<string>)
    requires after != []
    ensures |before + [last]| <= |before + after|
    ensures (before + [last])[..|before|] == before && before <= before + after
    ensures (before + [last])[|before|] == last && (before + after)[|before|] == after[0]
    ensures last == after[0] ==> before + [last] <= before + after
  {
  }

  /** The last line of the shorter file is kept exactly when nothing, or a line break, follows it. */
  lemma TailInLongerFile(tail: string, more: string)
    requires tail != "" && '\n' !in tail
    ensures Lines(tail) == [tail] && Lines(tail + more) != []
    ensures Lines(tail + more)[0] == tail <==> more == "" || more[0] == '\n'
  {
    OneLine(tail);
    if more == "" {
      assert tail + more == tail;
    } else {
      ContinuedLine(tail, more);
    }
  }

  /**
   What a longer file keeps of a shorter one's lines: all of them if the shorter ends clean, and
   otherwise all but the last, which has become another line.
   */
  lemma LongerFile(content: string, full: string)
    requires content <= full
    ensures |Lines(content)| <= |Lines(full)|
    ensures EndsClean(content, full) ==> Lines(content) <= Lines(full)
    ensures !EndsClean(content, full) ==>
              Lines(content) != [] && Lines(content)[|Lines(content)| - 1] != Lines(full)[|Lines(content)| - 1]
  {
    var whole, tail := LastBreak(content);
    var more := full[|content|..];
    assert full == whole + (tail + more);
    GrowthAddsLines(whole, tail);
    GrowthAddsLines(whole, tail + more);
    if tail == "" {
      EmptyHasNoLines();
    } else {
      TailInLongerFile(tail, more);
      LastLineReplaced(Lines(whole), tail, Lines(tail + more));
    }
  }

  /** The lines from `from` on are those of the longer file exactly when there are none or the shorter ends clean. */
  lemma RestExactly(content: string, full: string, from: nat)
    requires content <= full && from <= |Lines(content)|
    ensures |Lines(content)| <= |Lines(full)|
    ensures Lines(content)[from..] == Lines(full)[from..|Lines(content)|]
       <==> from == |Lines(content)| || EndsClean(content, full)
  {
    LongerFile(content, full);
    var n := |Lines(content)|;
    if EndsClean(content, full) {
      assert Lines(content) == Lines(full)[..n];
    } else if from < n {
      assert Lines(content)[from..][n - 1 - from] != Lines(full)[from..n][n - 1 - from];
    }
  }
}
