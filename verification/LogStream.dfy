/**
 Streaming a log file to one client: the lines present at connection, then polls that skip the file
 unless its size has grown, then the rest. The agent writes between any two of these, and also in
 the middle of each, between the size check and the read.
 */
module LogStream {
  import opened Collections
  import opened LogFile

  /** `delivered` is everything sent, as raw lines. */
  datatype Stream = Stream(content: string, lineCount: nat, fileSize: nat, delivered: seq<string>)

  /** Reads the lines first and the size after; `meanwhile` is written between the two. */
  function Open(content: string, history: seq<string>, resumeOffset: nat, meanwhile: string): Stream {
    var snapshot := ReadLogLines(content, resumeOffset);
    Stream(content + meanwhile, snapshot.lineCount, |content + meanwhile|, history + snapshot.lines)
  }

  /** Checks the size first and seen after. */
  function PollOnce(s: Stream, meanwhile: string): Stream {
    var grown := s.content + meanwhile;
    if |s.content| <= s.fileSize then s.(content := grown)
    else
      var read := ReadLogLines(grown, s.lineCount);
      Stream(grown, read.lineCount, |s.content|, s.delivered + read.lines)
  }

  /** A poll reads exactly if the file has grown since the size it last checked, and remembers the size, not the read. */
  lemma PollExactly(s: Stream, meanwhile: string)
    ensures var next := PollOnce(s, meanwhile);
            && next.content == s.content + meanwhile
            && (|s.content| > s.fileSize ==>
                  && next.fileSize == |s.content| && next.lineCount == |Lines(next.content)|
                  && next.delivered == s.delivered + ReadLogLines(next.content, s.lineCount).lines)
            && (|s.content| <= s.fileSize ==>
                  next.fileSize == s.fileSize && next.lineCount == s.lineCount && next.delivered == s.delivered)
  {
  }

  function Finish(s: Stream): Stream {
    s.(delivered := s.delivered + ReadLogLines(s.content, s.lineCount).lines)
  }

  datatype Moment = Grow(text: string) | Poll(meanwhile: string)

  function Pass(s: Stream, moment: Moment): Stream {
    match moment
    case Grow(text) => s.(content := s.content + text)
    case Poll(meanwhile) => PollOnce(s, meanwhile)
  }

  function Run(s: Stream, moments: seq<Moment>): Stream {
    if moments == [] then s else Pass(Run(s, moments[..|moments| - 1]), Last(moments))
  }

  /** A client that asks for more than there is gets everything from the end on. */
  function Start(content: string, resumeOffset: nat): nat {
    if resumeOffset <= |Lines(content)| then resumeOffset else |Lines(content)|
  }

  /** The run from the connection to the end of the stream. */
  function Session(
    content: string, history: seq<string>, resumeOffset: nat, meanwhile: string, moments: seq<Moment>): Stream
  {
    Run(Open(content, history, resumeOffset, meanwhile), moments)
  }

  // ---------------------------------------------------------------------------
  // Exactly once, for any text
  // ---------------------------------------------------------------------------

  /** What a moment seen, if it sends a line. */
  function ReadOf(s: Stream, moment: Moment): seq<string> {
    if moment.Poll? && |s.content| > s.fileSize && s.lineCount < |Lines(s.content + moment.meanwhile)|
    then [s.content + moment.meanwhile] else []
  }

  function Reads(s: Stream, moments: seq<Moment>): seq<string> {
    if moments == [] then []
    else Reads(s, moments[..|moments| - 1]) + ReadOf(Run(s, moments[..|moments| - 1]), Last(moments))
  }

  /** What the file held at each read of a session that sent a line, but for the last read of all. */
  function SessionReads(
    content: string, history: seq<string>, resumeOffset: nat, meanwhile: string, moments: seq<Moment>): seq<string>
  {
    (if resumeOffset < |Lines(content)| then [content] else [])
    + Reads(Open(content, history, resumeOffset, meanwhile), moments)
  }

  ghost predicate AllClean(seen: seq<string>, full: string) {
    forall i :: 0 <= i < |seen| ==> seen[i] <= full && EndsClean(seen[i], full)
  }

  /** So far the right number of lines was sent, and the right ones exactly if each read ended clean. */
  ghost predicate Sends(s: Stream, history: seq<string>, start: nat, seen: seq<string>, full: string) {
    && s.content <= full
    && start <= s.lineCount <= |Lines(s.content)| <= |Lines(full)|
    && |s.delivered| == |history| + s.lineCount - start
    && (s.delivered == history + Lines(full)[start..s.lineCount] <==> AllClean(seen, full))
  }

  lemma BothEqual<T>(a: seq<T>, b: seq<T>, x: seq<T>, y: seq<T>)
    requires |a| == |b|
    ensures a + x == b + y <==> a == b && x == y
  {
    if a + x == b + y {
      assert a == (a + x)[..|a|] && b == (b + y)[..|b|];
      assert x == (a + x)[|a|..] && y == (b + y)[|b|..];
    }
  }

  lemma AllCleanSnoc(seen: seq<string>, content: string, full: string)
    requires content <= full
    ensures AllClean(seen + [content], full) <==> AllClean(seen, full) && EndsClean(content, full)
  {
    var more := seen + [content];
    assert more[|seen|] == content;
    assert forall i :: 0 <= i < |seen| ==> more[i] == seen[i];
  }

  /** A read of the whole content so far. */
  lemma ReadSends(s: Stream, fileSize: nat, history: seq<string>, start: nat, seen: seq<string>, full: string)
    requires Sends(s, history, start, seen, full)
    ensures var n := |Lines(s.content)|;
            Sends(Stream(s.content, n, fileSize, s.delivered + ReadLogLines(s.content, s.lineCount).lines),
                  history, start, seen + if s.lineCount < n then [s.content] else [], full)
  {
    var lines := Lines(s.content);
    var sent := Slice(lines, s.lineCount);
    var due := Lines(full)[s.lineCount..|lines|];
    assert sent == lines[s.lineCount..];
    RestExactly(s.content, full, s.lineCount);
    BothEqual(s.delivered, history + Lines(full)[start..s.lineCount], sent, due);
    assert history + Lines(full)[start..s.lineCount] + due == history + Lines(full)[start..|lines|];
    if s.lineCount < |lines| {
      AllCleanSnoc(seen, s.content, full);
    } else {
      assert seen + [] == seen;
    }
  }

  lemma MomentSends(s: Stream, moment: Moment, history: seq<string>, start: nat, seen: seq<string>, full: string)
    requires Sends(s, history, start, seen, full) && Pass(s, moment).content <= full
    ensures Sends(Pass(s, moment), history, start, seen + ReadOf(s, moment), full)
  {
    var grown := s.(content := Pass(s, moment).content);
    LongerFile(s.content, grown.content);
    LongerFile(grown.content, full);
    assert Sends(grown, history, start, seen, full);
    if moment.Poll? && |s.content| > s.fileSize {
      ReadSends(grown, |s.content|, history, start, seen, full);
    } else {
      assert seen + [] == seen;
    }
  }

  lemma {:induction false} RunSends(
    s: Stream, moments: seq<Moment>, history: seq<string>, start: nat, seen: seq<string>, full: string)
    requires Sends(s, history, start, seen, full) && Run(s, moments).content <= full
    ensures Sends(Run(s, moments), history, start, seen + Reads(s, moments), full)
  {
    if moments == [] {
      assert seen + [] == seen;
    } else {
      var front := moments[..|moments| - 1];
      RunSends(s, front, history, start, seen, full);
      MomentSends(Run(s, front), Last(moments), history, start, seen + Reads(s, front), full);
      assert seen + Reads(s, front) + ReadOf(Run(s, front), Last(moments)) == seen + Reads(s, moments);
    }
  }

  lemma {:induction false} ContentGrows(s: Stream, moments: seq<Moment>)
    ensures s.content <= Run(s, moments).content
  {
    if moments != [] {
      ContentGrows(s, moments[..|moments| - 1]);
    }
  }

  lemma OpenSends(content: string, history: seq<string>, resumeOffset: nat, meanwhile: string, full: string)
    requires content + meanwhile <= full
    ensures Sends(Open(content, history, resumeOffset, meanwhile), history, Start(content, resumeOffset),
                  if resumeOffset < |Lines(content)| then [content] else [], full)
  {
    var start := Start(content, resumeOffset);
    var unread := Stream(content, start, 0, history);
    LongerFile(content, full);
    assert history + Lines(full)[start..start] == history;
    assert Sends(unread, history, start, [], full);
    ReadSends(unread, |content + meanwhile|, history, start, [], full);
    var first := Open(content, history, resumeOffset, meanwhile);
    assert first.(content := content)
        == Stream(content, |Lines(content)|, |content + meanwhile|, history + ReadLogLines(content, start).lines);
    LongerFile(content, content + meanwhile);
    LongerFile(content + meanwhile, full);
    assert [] + [content] == [content];
  }

  // ---------------------------------------------------------------------------
  // The stream as it runs
  // ---------------------------------------------------------------------------

  class FileStreamer {
    var content: string
    var lineCount: nat
    var fileSize: nat
    var delivered: seq<string>

    constructor (content: string, history: seq<string>, resumeOffset: nat, meanwhile: string)
      ensures State() == Open(content, history, resumeOffset, meanwhile)
    {
      var snapshot := ReadLogLines(content, resumeOffset);
      this.content := content + meanwhile;
      lineCount := snapshot.lineCount;
      fileSize := |content + meanwhile|;
      delivered := history + snapshot.lines;
    }

    function State(): Stream
      reads this
    {
      Stream(content, lineCount, fileSize, delivered)
    }

    /** The agent writes. */
    method AgentWrites(text: string)
      modifies this`content
      ensures State() == Pass(old(State()), Grow(text))
    {
      content := content + text;
    }

    method SendLogLines(lines: seq<string>)
      modifies this`delivered
      ensures delivered == old(delivered) + lines
    {
      var i := 0;
      while i < |lines|
        invariant i <= |lines| && delivered == old(delivered) + lines[..i]
      {
        delivered := delivered + [lines[i]];
        i := i + 1;
      }
    }

    method PollOnce(meanwhile: string)
      modifies this
      ensures State() == Pass(old(State()), Poll(meanwhile))
    {
      var newSize := |content|;
      content := content + meanwhile;
      if newSize <= fileSize {
        return;
      }
      fileSize := newSize;
      var read := ReadLogLines(content, lineCount);
      SendLogLines(read.lines);
      lineCount := read.lineCount;
    }

    method FinishFromFile()
      modifies this`delivered
      ensures State() == Finish(old(State()))
    {
      var remaining := ReadLogLines(content, lineCount);
      SendLogLines(remaining.lines);
    }
  }
}
