/** What a client receives over a whole connection, for any schedule of writes and polls. */
module LogStreamRuns {
  import opened Collections
  import opened LogFile
  import opened LogStream

  /**
   For every schedule of writes and polls, of whatever text: the client gets the history and then as
   many lines as follow its offset, in order, none twice; and they are the file's lines exactly when no
   read that sent a line broke off inside a line that was then continued.
   */
  lemma EachLineOnceExactly(
    content: string, history: seq<string>, resumeOffset: nat, meanwhile: string, moments: seq<Moment>)
    ensures var s := Session(content, history, resumeOffset, meanwhile, moments);
            var start := Start(content, resumeOffset);
            && start <= |Lines(s.content)|
            && |Finish(s).delivered| == |history| + |Lines(s.content)| - start
            && (Finish(s).delivered == history + Lines(s.content)[start..]
                <==> AllClean(SessionReads(content, history, resumeOffset, meanwhile, moments), s.content))
  {
    var first := Open(content, history, resumeOffset, meanwhile);
    var s := Run(first, moments);
    var start := Start(content, resumeOffset);
    var seen := SessionReads(content, history, resumeOffset, meanwhile, moments);
    ContentGrows(first, moments);
    OpenSends(content, history, resumeOffset, meanwhile, s.content);
    RunSends(first, moments, history, start, if resumeOffset < |Lines(content)| then [content] else [], s.content);
    ReadSends(s, 0, history, start, seen, s.content);
    assert Lines(s.content)[start..|Lines(s.content)|] == Lines(s.content)[start..];
    AllCleanSnoc(seen, s.content, s.content);
    assert seen + [] == seen;
  }

  /** From its own offset on exactly if, besides, that offset was not beyond a file that grew. */
  lemma ResumedExactly(
    content: string, history: seq<string>, resumeOffset: nat, meanwhile: string, moments: seq<Moment>)
    ensures var s := Session(content, history, resumeOffset, meanwhile, moments);
            Finish(s).delivered == history + Slice(Lines(s.content), resumeOffset)
            <==> if resumeOffset <= |Lines(content)|
                 then AllClean(SessionReads(content, history, resumeOffset, meanwhile, moments), s.content)
                 else |Lines(s.content)| == |Lines(content)|
  {
    EachLineOnceExactly(content, history, resumeOffset, meanwhile, moments);
    var s := Session(content, history, resumeOffset, meanwhile, moments);
    var all := Lines(s.content);
    if resumeOffset <= |Lines(content)| {
      assert Slice(all, resumeOffset) == all[resumeOffset..];
    } else {
      assert |history + Slice(all, resumeOffset)| == |history| + |Slice(all, resumeOffset)|;
      if |all| == |Lines(content)| {
        NothingMore(history, Finish(s).delivered, content, resumeOffset, meanwhile, moments);
      }
    }
  }

  /** The history comes first. */
  lemma {:induction false} HistoryComesFirst(s: Stream, moments: seq<Moment>)
    ensures s.delivered <= Run(s, moments).delivered
  {
    if moments != [] {
      HistoryComesFirst(s, moments[..|moments| - 1]);
    }
  }

  lemma NothingMore(
    history: seq<string>, sent: seq<string>, content: string, resumeOffset: nat, meanwhile: string,
    moments: seq<Moment>)
    requires sent == Finish(Session(content, history, resumeOffset, meanwhile, moments)).delivered
    requires |sent| == |history|
    ensures sent == history
  {
    var first := Open(content, history, resumeOffset, meanwhile);
    HistoryComesFirst(first, moments);
    assert history <= first.delivered && first.delivered <= Run(first, moments).delivered <= sent;
  }

  // ---------------------------------------------------------------------------
  // Whole lines
  // ---------------------------------------------------------------------------

  function TextOf(moment: Moment): string {
    match moment
    case Grow(text) => text
    case Poll(meanwhile) => meanwhile
  }

  ghost predicate AllWhole(moments: seq<Moment>) {
    forall i :: 0 <= i < |moments| ==> WholeLines(TextOf(moments[i]))
  }

  ghost predicate WholeReads(seen: seq<string>, content: string) {
    forall i :: 0 <= i < |seen| ==> seen[i] <= content && WholeLines(seen[i])
  }

  lemma ReadIsWhole(s: Stream, moment: Moment)
    requires WholeLines(s.content) && WholeLines(TextOf(moment))
    ensures WholeLines(Pass(s, moment).content) && s.content <= Pass(s, moment).content
    ensures WholeReads(ReadOf(s, moment), Pass(s, moment).content)
  {
    GrowthAddsLines(s.content, TextOf(moment));
  }

  lemma WholeReadsConcat(a: seq<string>, b: seq<string>, content: string, later: string)
    requires content <= later && WholeReads(a, content) && WholeReads(b, later)
    ensures WholeReads(a + b, later)
  {
  }

  lemma {:induction false} ReadsAreWhole(s: Stream, moments: seq<Moment>)
    requires WholeLines(s.content) && AllWhole(moments)
    ensures WholeLines(Run(s, moments).content)
    ensures WholeReads(Reads(s, moments), Run(s, moments).content)
  {
    if moments != [] {
      var front, last := moments[..|moments| - 1], moments[|moments| - 1];
      assert forall i :: 0 <= i < |front| ==> front[i] == moments[i];
      ReadsAreWhole(s, front);
      ReadIsWhole(Run(s, front), last);
      WholeReadsConcat(Reads(s, front), ReadOf(Run(s, front), last), Run(s, front).content, Run(s, moments).content);
    }
  }

  /**
   When only whole lines are written, the client gets the history and then each line from its offset
   once and in order; at any earlier time it has a prefix of that.
   */
  lemma EachLineOnce(content: string, history: seq<string>, resumeOffset: nat, meanwhile: string, moments: seq<Moment>)
    requires WholeLines(content) && WholeLines(meanwhile) && AllWhole(moments)
    ensures var s := Session(content, history, resumeOffset, meanwhile, moments);
            && Start(content, resumeOffset) <= |Lines(s.content)|
            && Finish(s).delivered == history + Lines(s.content)[Start(content, resumeOffset)..]
            && s.delivered <= Finish(s).delivered
  {
    EachLineOnceExactly(content, history, resumeOffset, meanwhile, moments);
    WholeSession(content, history, resumeOffset, meanwhile, moments);
  }

  lemma WholeSession(
    content: string, history: seq<string>, resumeOffset: nat, meanwhile: string, moments: seq<Moment>)
    requires WholeLines(content) && WholeLines(meanwhile) && AllWhole(moments)
    ensures AllClean(SessionReads(content, history, resumeOffset, meanwhile, moments),
                     Session(content, history, resumeOffset, meanwhile, moments).content)
  {
    var first := Open(content, history, resumeOffset, meanwhile);
    GrowthAddsLines(content, meanwhile);
    ReadsAreWhole(first, moments);
    ContentGrows(first, moments);
    assert content <= content + meanwhile;
    var atOnce := if resumeOffset < |Lines(content)| then [content] else [];
    WholeReadsConcat(atOnce, Reads(first, moments), first.content, Run(first, moments).content);
  }

  lemma SessionGrows(
    content: string, history: seq<string>, resumeOffset: nat, meanwhile: string, moments: seq<Moment>)
    ensures content <= Session(content, history, resumeOffset, meanwhile, moments).content
  {
    ContentGrows(Open(content, history, resumeOffset, meanwhile), moments);
  }

  /** Lines written while the connection opens wait for the next growth: no poll sends them before. */
  lemma OpeningGapWaits(content: string, history: seq<string>, resumeOffset: nat, meanwhile: string)
    ensures var s := Open(content, history, resumeOffset, meanwhile);
            PollOnce(s, "") == s
  {
    assert content + meanwhile + "" == content + meanwhile;
  }

  /** Growth that does not raise the number of lines is never sent. */
  lemma CountHidesGrowth(content: string, text: string)
    requires |Lines(content + text)| == |Lines(content)|
    ensures var s := Session(content, [], 0, "", [Grow(text), Poll("")]);
            s.content == content + text && Finish(s).delivered == Lines(content)
  {
    var connected := Open(content, [], 0, "");
    assert content + "" == content && content + text + "" == content + text;
    assert connected == Stream(content, |Lines(content)|, |content|, Lines(content));
    TwoMoments(connected, Grow(text), Poll(""));
  }

  /** So a line seen half-written is never completed. */
  lemma HalfLineIsLost(x: string, y: string)
    requires x != "" && y != "" && '\n' !in x && '\n' !in y
    ensures var s := Session(x, [], 0, "", [Grow(y + "\n"), Poll("")]);
            Lines(s.content) == [x + y] && Finish(s).delivered == [x]
  {
    OneLine(x);
    OneLine(x + y);
    assert x + (y + "\n") == (x + y) + "\n";
    CountHidesGrowth(x, y + "\n");
  }

  lemma TwoMoments(s: Stream, first: Moment, second: Moment)
    ensures Run(s, [first, second]) == Pass(Pass(s, first), second)
  {
    assert [first, second][..1] == [first];
    assert Run(s, [first][..0]) == s;
    assert Run(s, [first]) == Pass(s, first);
  }
}
