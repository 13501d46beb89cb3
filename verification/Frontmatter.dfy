/**
 Markdown with frontmatter: what the regular expression of `parseFrontmatter` accepts, and when
 printing and parsing undo each other. The YAML library is a pair of function parameters.
 */
module Frontmatter {
  import opened Collections
  import opened TaskModel
  import TaskDocs

  /** The two captured texts. */
  datatype Document = Document(yaml: string, body: string)

  datatype FrontmatterError = MissingDelimiters | BadYaml

  const Closing: string := "\n---"
  const CarriageClosing: string := "\r\n---"

  predicate StartsWith(text: string, prefix: string) {
    prefix <= text
  }

  /** `\r?\n---` matches at the start of the text. */
  predicate ClosesHere(text: string) {
    StartsWith(text, CarriageClosing) || StartsWith(text, Closing)
  }

  /** `([\s\S]*?)\r?\n---`: the shortest text before a closing fence. */
  function ShortestYaml(text: string): (r: Option<nat>)
    ensures r.Some? ==> r.value <= |text|
  {
    if ClosesHere(text) then Some(0)
    else if text == "" then None
    else
      match ShortestYaml(text[1..])
      case None => None
      case Some(n) => Some(n + 1)
  }

  /** Drops `\r?\n---`, then `\r?` and `\n?`. */
  function AfterClosing(text: string): string
    requires ClosesHere(text)
  {
    var rest := if StartsWith(text, CarriageClosing) then text[|CarriageClosing|..] else text[|Closing|..];
    var noReturn := if StartsWith(rest, "\r") then rest[1..] else rest;
    if StartsWith(noReturn, "\n") then noReturn[1..] else noReturn
  }

  /** The part of the expression after the opening fence. */
  function ParseRest(text: string): Result<Document, FrontmatterError> {
    match ShortestYaml(text)
    case None => Err(MissingDelimiters)
    case Some(n) =>
      ShortestCloses(text);
      Ok(Document(text[..n], AfterClosing(text[n..])))
  }

  function Parse(markdown: string): Result<Document, FrontmatterError> {
    if StartsWith(markdown, "---\r\n") then ParseRest(markdown[5..])
    else if StartsWith(markdown, "---\n") then ParseRest(markdown[4..])
    else Err(MissingDelimiters)
  }

  /** The printed document, for YAML text that is already trimmed. */
  function Print(doc: Document): string {
    "---\n" + doc.yaml + "\n---\n" + doc.body
  }

  lemma {:induction false} ShortestCloses(text: string)
    ensures match ShortestYaml(text)
            case Some(n) => ClosesHere(text[n..]) && forall i :: 0 <= i < n ==> !ClosesHere(text[i..])
            case None => forall i :: 0 <= i <= |text| ==> !ClosesHere(text[i..])
  {
    if ClosesHere(text) {
      assert text[0..] == text;
    } else if text != "" {
      ShortestCloses(text[1..]);
      assert forall i :: 0 < i <= |text| ==> text[i..] == text[1..][i - 1..];
      assert text[0..] == text;
    }
  }

  lemma ShortestIs(text: string, n: nat)
    requires n <= |text| && ClosesHere(text[n..])
    requires forall i :: 0 <= i < n ==> !ClosesHere(text[i..])
    ensures ShortestYaml(text) == Some(n)
  {
    ShortestCloses(text);
  }

  // ---------------------------------------------------------------------------
  // Round trip
  // ---------------------------------------------------------------------------

  ghost predicate HasClosing(text: string) {
    exists i :: 0 <= i <= |text| && StartsWith(text[i..], Closing)
  }

  ghost predicate EndsInReturn(text: string) {
    text != "" && Last(text) == '\r'
  }

  /** YAML text that the parser can find the end of. */
  ghost predicate Printable(yaml: string) {
    !HasClosing(yaml) && !EndsInReturn(yaml)
  }

  /** Inside the YAML text, a fence closes exactly where it does without what follows, or at a last `\r`. */
  lemma ClosesInside(yaml: string, body: string, i: nat)
    requires i < |yaml|
    ensures ClosesHere((yaml + "\n---\n" + body)[i..])
       <==> StartsWith(yaml[i..], Closing) || StartsWith(yaml[i..], CarriageClosing) || yaml[i..] == "\r"
  {
    var tail := yaml[i..];
    var text := (yaml + "\n---\n" + body)[i..];
    assert text == tail + "\n---\n" + body;
    FenceInside(tail, body);
  }

  lemma FenceChars(text: string)
    ensures StartsWith(text, Closing)
       <==> |text| >= 4 && text[0] == '\n' && text[1] == '-' && text[2] == '-' && text[3] == '-'
    ensures StartsWith(text, CarriageClosing) <==> |text| >= 5 && text[0] == '\r' && StartsWith(text[1..], Closing)
  {
  }

  lemma FenceInside(tail: string, body: string)
    requires tail != ""
    ensures ClosesHere(tail + "\n---\n" + body)
       <==> StartsWith(tail, Closing) || StartsWith(tail, CarriageClosing) || tail == "\r"
  {
    PlainFenceInside(tail, body);
    var text := tail + "\n---\n" + body;
    FenceChars(text);
    FenceChars(tail);
    assert text[1..] == tail[1..] + "\n---\n" + body;
    if |tail| > 1 {
      PlainFenceInside(tail[1..], body);
    } else {
      assert text[1..] == "\n---\n" + body;
      BodyAfterFence(body);
    }
  }

  lemma PlainFenceInside(tail: string, body: string)
    requires tail != ""
    ensures StartsWith(tail + "\n---\n" + body, Closing) <==> StartsWith(tail, Closing)
  {
    var text := tail + "\n---\n" + body;
    FenceChars(text);
    FenceChars(tail);
    assert text[|tail|] == '\n';
  }

  lemma BodyAfterFence(body: string)
    ensures ClosesHere("\n---\n" + body) && AfterClosing("\n---\n" + body) == body
  {
    var text := "\n---\n" + body;
    FenceChars(text);
    assert text[4..] == "\n" + body;
    assert text[4..][0] == '\n' && text[4..][1..] == body;
  }

  lemma CarriageHasClosing(yaml: string, i: nat)
    requires i < |yaml| && StartsWith(yaml[i..], CarriageClosing)
    ensures HasClosing(yaml)
  {
    FenceChars(yaml[i..]);
    assert yaml[i..][1..] == yaml[i + 1..];
  }

  /** Whatever closes too early is a fence in the YAML text or its last `\r`. */
  lemma EarlyClosingSpoils(yaml: string, body: string, i: nat)
    requires i < |yaml| && ClosesHere((yaml + "\n---\n" + body)[i..])
    ensures !Printable(yaml)
  {
    ClosesInside(yaml, body, i);
    if StartsWith(yaml[i..], CarriageClosing) {
      CarriageHasClosing(yaml, i);
    } else if yaml[i..] == "\r" {
      assert Last(yaml) == yaml[i..][0];
    }
  }

  lemma SpoiledClosesEarly(yaml: string, body: string) returns (i: nat)
    requires !Printable(yaml)
    ensures i < |yaml| && ClosesHere((yaml + "\n---\n" + body)[i..])
  {
    if EndsInReturn(yaml) {
      i := |yaml| - 1;
      assert yaml[i..] == "\r";
    } else {
      i :| i <= |yaml| && StartsWith(yaml[i..], Closing);
      FenceChars(yaml[i..]);
    }
    ClosesInside(yaml, body, i);
  }

  lemma ParsePrinted(doc: Document)
    ensures Parse(Print(doc)) == ParseRest(doc.yaml + "\n---\n" + doc.body)
  {
    var text := Print(doc);
    assert text[3] == '\n';
    assert text[..4] == "---\n" && text[4..] == doc.yaml + "\n---\n" + doc.body;
  }

  lemma RoundTrips(doc: Document)
    requires Printable(doc.yaml)
    ensures Parse(Print(doc)) == Ok(doc)
  {
    var text := doc.yaml + "\n---\n" + doc.body;
    assert text[|doc.yaml|..] == "\n---\n" + doc.body && text[..|doc.yaml|] == doc.yaml;
    BodyAfterFence(doc.body);
    forall i | 0 <= i < |doc.yaml| ensures !ClosesHere(text[i..]) {
      if ClosesHere(text[i..]) {
        EarlyClosingSpoils(doc.yaml, doc.body, i);
      }
    }
    ShortestIs(text, |doc.yaml|);
    ParsePrinted(doc);
  }

  lemma UnprintableIsCutShort(doc: Document)
    requires !Printable(doc.yaml)
    ensures Parse(Print(doc)) != Ok(doc)
  {
    var i := SpoiledClosesEarly(doc.yaml, doc.body);
    ShortestCloses(doc.yaml + "\n---\n" + doc.body);
    ParsePrinted(doc);
  }

  /** Printing then parsing gives the document back exactly when its YAML text has no fence and no last `\r`. */
  lemma RoundTripsExactly(doc: Document)
    ensures Parse(Print(doc)) == Ok(doc) <==> Printable(doc.yaml)
  {
    if Printable(doc.yaml) {
      RoundTrips(doc);
    } else {
      UnprintableIsCutShort(doc);
    }
  }

  // ---------------------------------------------------------------------------
  // Documents written with carriage returns
  // ---------------------------------------------------------------------------

  function PrintWithReturns(doc: Document): string {
    "---\r\n" + doc.yaml + "\r\n---\r\n" + doc.body
  }

  lemma ReturnFenceInside(tail: string, body: string)
    requires tail != ""
    ensures ClosesHere(tail + "\r\n---\r\n" + body)
       <==> StartsWith(tail, Closing) || StartsWith(tail, CarriageClosing)
  {
    PlainReturnFenceInside(tail, body);
    var text := tail + "\r\n---\r\n" + body;
    FenceChars(text);
    FenceChars(tail);
    assert text[1..] == tail[1..] + "\r\n---\r\n" + body;
    if |tail| > 1 {
      PlainReturnFenceInside(tail[1..], body);
    } else {
      FenceChars(text[1..]);
      assert text[1] == '\r';
    }
  }

  lemma PlainReturnFenceInside(tail: string, body: string)
    requires tail != ""
    ensures StartsWith(tail + "\r\n---\r\n" + body, Closing) <==> StartsWith(tail, Closing)
  {
    var text := tail + "\r\n---\r\n" + body;
    FenceChars(text);
    FenceChars(tail);
    assert text[|tail|] == '\r';
  }

  lemma BodyAfterReturnFence(body: string)
    ensures ClosesHere("\r\n---\r\n" + body) && AfterClosing("\r\n---\r\n" + body) == body
  {
    var text := "\r\n---\r\n" + body;
    assert text[..5] == CarriageClosing && text[5..] == "\r\n" + body;
    assert text[5..][1..] == "\n" + body && text[5..][0] == '\r';
    assert ("\n" + body)[1..] == body;
  }

  lemma ParseWithReturns(doc: Document)
    ensures Parse(PrintWithReturns(doc)) == ParseRest(doc.yaml + "\r\n---\r\n" + doc.body)
  {
    var text := PrintWithReturns(doc);
    assert text[..5] == "---\r\n" && text[5..] == doc.yaml + "\r\n---\r\n" + doc.body;
  }

  /** With `\r\n` around the fences, text and body come back exactly when the text has no fence. */
  lemma ReturnsRoundTripExactly(doc: Document)
    ensures Parse(PrintWithReturns(doc)) == Ok(doc) <==> !HasClosing(doc.yaml)
  {
    if HasClosing(doc.yaml) {
      FencedIsCutShort(doc);
    } else {
      ReturnsRoundTrip(doc);
    }
  }

  lemma FencedIsCutShort(doc: Document)
    requires HasClosing(doc.yaml)
    ensures Parse(PrintWithReturns(doc)) != Ok(doc)
  {
    var i: nat :| i <= |doc.yaml| && StartsWith(doc.yaml[i..], Closing);
    FenceChars(doc.yaml[i..]);
    FenceAt(doc.yaml, doc.body, i);
    ShortestCloses(doc.yaml + "\r\n---\r\n" + doc.body);
    ParseWithReturns(doc);
  }

  lemma FenceAt(yaml: string, body: string, i: nat)
    requires i < |yaml| && StartsWith(yaml[i..], Closing)
    ensures ClosesHere((yaml + "\r\n---\r\n" + body)[i..])
  {
    assert (yaml + "\r\n---\r\n" + body)[i..] == yaml[i..] + "\r\n---\r\n" + body;
    ReturnFenceInside(yaml[i..], body);
  }

  lemma ReturnsRoundTrip(doc: Document)
    requires !HasClosing(doc.yaml)
    ensures Parse(PrintWithReturns(doc)) == Ok(doc)
  {
    var text := doc.yaml + "\r\n---\r\n" + doc.body;
    assert text[|doc.yaml|..] == "\r\n---\r\n" + doc.body && text[..|doc.yaml|] == doc.yaml;
    BodyAfterReturnFence(doc.body);
    forall i | 0 <= i < |doc.yaml| ensures !ClosesHere(text[i..]) {
      if ClosesHere(text[i..]) {
        EarlyReturnClosingSpoils(doc.yaml, doc.body, i);
      }
    }
    ShortestIs(text, |doc.yaml|);
    ParseWithReturns(doc);
  }

  lemma EarlyReturnClosingSpoils(yaml: string, body: string, i: nat)
    requires i < |yaml| && ClosesHere((yaml + "\r\n---\r\n" + body)[i..])
    ensures HasClosing(yaml)
  {
    assert (yaml + "\r\n---\r\n" + body)[i..] == yaml[i..] + "\r\n---\r\n" + body;
    ReturnFenceInside(yaml[i..], body);
    if StartsWith(yaml[i..], CarriageClosing) {
      CarriageHasClosing(yaml, i);
    }
  }

  // ---------------------------------------------------------------------------
  // Updating a document
  // ---------------------------------------------------------------------------

  /** What `String.trim` removes. */
  predicate IsSpace(c: char) {
    || '\t' <= c <= '\r' || c == ' '
    || c == '\U{00A0}' || c == '\U{1680}' || '\U{2000}' <= c <= '\U{200A}'
    || c == '\U{2028}' || c == '\U{2029}' || c == '\U{202F}' || c == '\U{205F}'
    || c == '\U{3000}' || c == '\U{FEFF}'
  }

  function TrimStart(text: string): string {
    if text != "" && IsSpace(text[0]) then TrimStart(text[1..]) else text
  }

  function TrimEnd(text: string): string {
    if text != "" && IsSpace(Last(text)) then TrimEnd(text[..|text| - 1]) else text
  }

  function Trim(text: string): string {
    TrimEnd(TrimStart(text))
  }

  lemma {:induction false} TrimEndsWell(text: string)
    ensures !EndsInReturn(TrimEnd(text))
  {
    if text != "" && IsSpace(Last(text)) {
      TrimEndsWell(text[..|text| - 1]);
    }
  }

  /** White space and line ends of the language, by code point. */
  ghost predicate IsBlank(c: char) {
    || c as int in {0x9, 0xA, 0xB, 0xC, 0xD, 0x20, 0xA0, 0x1680, 0x2028, 0x2029, 0x202F, 0x205F, 0x3000, 0xFEFF}
    || 0x2000 <= c as int <= 0x200A
  }

  lemma SpacesAreBlank(c: char)
    ensures IsSpace(c) <==> IsBlank(c)
  {
  }

  lemma {:induction false} TrimStartExactly(text: string) returns (n: nat)
    ensures n <= |text| && TrimStart(text) == text[n..]
    ensures forall i :: 0 <= i < n ==> IsBlank(text[i])
    ensures n < |text| ==> !IsBlank(text[n])
  {
    n := 0;
    if text != "" {
      SpacesAreBlank(text[0]);
      if IsSpace(text[0]) {
        n := TrimStartExactly(text[1..]);
        assert text[1..][n..] == text[n + 1..];
        n := n + 1;
      }
    }
  }

  lemma {:induction false} TrimEndExactly(text: string)
    ensures TrimEnd(text) <= text
    ensures forall i :: |TrimEnd(text)| <= i < |text| ==> IsBlank(text[i])
    ensures TrimEnd(text) != "" ==> !IsBlank(Last(TrimEnd(text)))
  {
    if text != "" {
      SpacesAreBlank(Last(text));
      if IsSpace(Last(text)) {
        TrimEndExactly(text[..|text| - 1]);
      }
    }
  }

  /** Trimming takes blanks from both ends, all of them, and nothing else. */
  lemma TrimExactly(text: string) returns (from: nat, to: nat)
    ensures from <= to <= |text| && Trim(text) == text[from..to]
    ensures forall i :: 0 <= i < |text| && !(from <= i < to) ==> IsBlank(text[i])
    ensures from < to ==> !IsBlank(text[from]) && !IsBlank(text[to - 1])
  {
    from := TrimStartExactly(text);
    var rest := text[from..];
    TrimEndExactly(rest);
    to := from + |TrimEnd(rest)|;
    assert TrimEnd(rest) == rest[..|TrimEnd(rest)|];
    forall i | to <= i < |text| ensures IsBlank(text[i]) {
      assert rest[i - from] == text[i];
    }
  }

  /** `serializeFrontmatter`. */
  function Serialize<F>(frontmatter: F, body: string, stringify: F -> string): string {
    Print(Document(Trim(stringify(frontmatter)), body))
  }

  /** Parses and reads the YAML text. */
  function ReadDocument<F>(markdown: string, read: string -> Result<F, FrontmatterError>)
      : Result<(F, string), FrontmatterError>
  {
    match Parse(markdown)
    case Err(error) => Err(error)
    case Ok(doc) =>
      match read(doc.yaml)
      case Err(error) => Err(error)
      case Ok(frontmatter) => Ok((frontmatter, doc.body))
  }

  /** The first of the two errors, if any: no fences, or YAML text that the library refuses. */
  lemma ReadFailsExactly<F>(markdown: string, read: string -> Result<F, FrontmatterError>)
    ensures Parse(markdown).Err? ==>
              Parse(markdown) == Err(MissingDelimiters) && ReadDocument(markdown, read) == Err(MissingDelimiters)
    ensures Parse(markdown).Ok? && read(Parse(markdown).value.yaml).Err? ==>
              ReadDocument(markdown, read) == Err(read(Parse(markdown).value.yaml).error)
    ensures Parse(markdown).Ok? && read(Parse(markdown).value.yaml).Ok? ==>
              ReadDocument(markdown, read) == Ok((read(Parse(markdown).value.yaml).value, Parse(markdown).value.body))
  {
  }

  /** `updateFrontmatter`, from the file's old text to its new one. */
  function Update<F>(
      markdown: string, read: string -> Result<F, FrontmatterError>, stringify: F -> string, change: F -> F)
      : Result<string, FrontmatterError>
  {
    match ReadDocument(markdown, read)
    case Err(error) => Err(error)
    case Ok((frontmatter, body)) => Ok(Serialize(change(frontmatter), body, stringify))
  }

  /** An update can be read back, body and all, exactly when the new YAML text has no fence inside. */
  lemma UpdateReadsBackExactly<F>(
      markdown: string, read: string -> Result<F, FrontmatterError>, stringify: F -> string, change: F -> F)
    requires Update(markdown, read, stringify, change).Ok?
    ensures var text := Update(markdown, read, stringify, change).value;
            var (frontmatter, body) := ReadDocument(markdown, read).value;
            var yaml := Trim(stringify(change(frontmatter)));
            Parse(text) == Ok(Document(yaml, body)) <==> !HasClosing(yaml)
  {
    var (frontmatter, body) := ReadDocument(markdown, read).value;
    TrimEndsWell(TrimStart(stringify(change(frontmatter))));
    RoundTripsExactly(Document(Trim(stringify(change(frontmatter))), body));
  }

  /** A YAML library that reads what it prints, and never prints a line that starts with a fence. */
  ghost predicate Faithful<F(!new)>(read: string -> Result<F, FrontmatterError>, stringify: F -> string) {
    forall frontmatter: F ::
      read(Trim(stringify(frontmatter))) == Ok(frontmatter) && !HasClosing(Trim(stringify(frontmatter)))
  }

  lemma SerializedReadsBack<F(!new)>(
      frontmatter: F, body: string, read: string -> Result<F, FrontmatterError>, stringify: F -> string)
    requires Faithful(read, stringify)
    ensures ReadDocument(Serialize(frontmatter, body, stringify), read) == Ok((frontmatter, body))
  {
    TrimEndsWell(TrimStart(stringify(frontmatter)));
    RoundTripsExactly(Document(Trim(stringify(frontmatter)), body));
  }

  /** Two updates in a row leave the same file as both changes at once. */
  lemma UpdatesCompose<F(!new)>(
      markdown: string, read: string -> Result<F, FrontmatterError>, stringify: F -> string,
      first: F -> F, second: F -> F)
    requires Faithful(read, stringify) && Update(markdown, read, stringify, first).Ok?
    ensures Update(Update(markdown, read, stringify, first).value, read, stringify, second)
         == Update(markdown, read, stringify, f => second(first(f)))
  {
    var (frontmatter, body) := ReadDocument(markdown, read).value;
    SerializedReadsBack(first(frontmatter), body, read, stringify);
  }

  // ---------------------------------------------------------------------------
  // Status updates
  // ---------------------------------------------------------------------------

  type Fields = map<string, string>

  function SetStatus(status: TaskStatus): Fields -> Fields {
    (fields: Fields) => fields["status" := TaskDocs.StatusText(status)]
  }

  function StatusField(fields: Fields): Option<string> {
    if "status" in fields then Some(fields["status"]) else None
  }

  /** A written status is the status that is read; every other field and the body stay. */
  lemma StatusUpdateIsRead(
      markdown: string, read: string -> Result<Fields, FrontmatterError>, stringify: Fields -> string,
      status: TaskStatus)
    requires Faithful(read, stringify) && ReadDocument(markdown, read).Ok?
    ensures var written := Update(markdown, read, stringify, SetStatus(status));
            && written.Ok? && ReadDocument(written.value, read).Ok?
            && var (before, body) := ReadDocument(markdown, read).value;
               var (after, bodyAfter) := ReadDocument(written.value, read).value;
               && bodyAfter == body
               && "status" in after && after["status"] == TaskDocs.StatusText(status)
               && (status == Paused ==> after["status"] == "PAUSED")
               && (status == Blocked ==> after["status"] == "BLOCKED")
               && TaskDocs.NormalizeTaskStatus(StatusField(after)) == status
               && after - {"status"} == before - {"status"}
  {
    var (before, body) := ReadDocument(markdown, read).value;
    SerializedReadsBack(SetStatus(status)(before), body, read, stringify);
    TaskDocs.StatusRoundTrip(status);
  }

  class DocumentFile {
    var text: string

    constructor (text: string)
      ensures this.text == text
    {
      this.text := text;
    }

    /** A document that does not parse is left as it is. */
    method UpdateFrontmatter<F>(read: string -> Result<F, FrontmatterError>, stringify: F -> string, change: F -> F)
        returns (error: Option<FrontmatterError>)
      modifies this
      ensures match Update(old(text), read, stringify, change)
              case Ok(written) => error.None? && text == written
              case Err(failure) => error == Some(failure) && text == old(text)
    {
      var parsed := Parse(text);
      if parsed.Err? {
        return Some(parsed.error);
      }
      var frontmatter := read(parsed.value.yaml);
      if frontmatter.Err? {
        return Some(frontmatter.error);
      }
      text := Serialize(change(frontmatter.value), parsed.value.body, stringify);
      error := None;
    }
  }
}
