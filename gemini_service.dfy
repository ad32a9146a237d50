/** The classifier client (services/geminiService.ts): the network call is an
    input (`ApiReply`), and `AnalyzeNames` is what `analyzeNames` does with
    it: parse the reply text into a verdict and a correct name, or throw. */
module GeminiService {
  import opened Wrappers
  import opened Types
  import opened Strings

  /** What the network call threw: an `Error` with its message, or some other value. */
  datatype Thrown = ErrorWithMessage(message: string) | NonErrorValue

  /** The outcome of one `generateContent` call: it threw, or it answered with
      an optional text and the grounding chunks of its first candidate
      (an empty sequence when the response has none). */
  datatype ApiReply =
    | CallFailed(thrown: Thrown)
    | Replied(text: Option<string>, chunks: seq<GroundingChunk>)

  /** What the parser extracts from the reply text. */
  datatype Verdict = Verdict(status: AnalysisStatus, correctName: string)

  /** What `analyzeNames` resolves with: `{ result, correctName, sources }`. */
  datatype Classification = Classification(status: AnalysisStatus, correctName: string, sources: seq<GroundingChunk>)

  const StatusTag: string := "STATUS:"
  const NameTag: string := "CORRECT NAME:"

  /** The line `find` accepts: trimmed and upper-cased, it starts with the tag. */
  predicate IsTagLine(line: string, tag: string) {
    StartsWith(Upper(Trim(line)), tag)
  }

  /** `lines.find(...)`: the index of the first tag line, if there is one. */
  function FirstTagLine(lines: seq<string>, tag: string): (r: Option<nat>)
    ensures r.Some? ==> r.value < |lines| && IsTagLine(lines[r.value], tag)
    ensures r.Some? ==> forall j {:trigger IsTagLine(lines[j], tag)} :: 0 <= j < r.value ==> !IsTagLine(lines[j], tag)
    ensures r.None? ==> forall j {:trigger IsTagLine(lines[j], tag)} :: 0 <= j < |lines| ==> !IsTagLine(lines[j], tag)
  {
    Find(lines, line => IsTagLine(line, tag))
  }

  /** The verdict named by a status line: the piece between its first and
      second colon, trimmed and upper-cased, is searched for "SAME" first and
      for "DIFFERENT" second. */
  function StatusOfLine(line: string): AnalysisStatus {
    var parts := Split(line, ':');
    if |parts| > 1 then
      var value := Upper(Trim(parts[1]));
      if Contains(value, "SAME") then Same
      else if Contains(value, "DIFFERENT") then Different
      else Error
    else Error
  }

  /** The name on a name line: everything after its first colon, trimmed. */
  function NameOfLine(line: string): string {
    var parts := Split(line, ':');
    if |parts| > 1 then Trim(Join(parts[1..], ':')) else ""
  }

  /** `resultText` after the structured parse: ERROR unless the first status line names a verdict. */
  function StatusFromLines(lines: seq<string>): AnalysisStatus {
    match FirstTagLine(lines, StatusTag)
    case None => Error
    case Some(i) => StatusOfLine(lines[i])
  }

  /** `correctName`: the name on the first name line, or "" when there is none. */
  function NameFromLines(lines: seq<string>): string {
    match FirstTagLine(lines, NameTag)
    case None => ""
    case Some(i) => NameOfLine(lines[i])
  }

  /** The fallback for a reply that is a bare verdict. */
  function BareStatus(text: string): AnalysisStatus {
    var simple := Upper(Trim(text));
    if simple == "SAME" then Same
    else if simple == "DIFFERENT" then Different
    else Error
  }

  /** The message of the error thrown for an unparseable reply. */
  function FormatErrorMessage(text: string): string {
    "Unexpected API response format: " + Take(text, 100) + "..."
  }

  /** The parse of a reply text: a verdict SAME or DIFFERENT with a name, or
      the format error. */
  function ParseResponse(text: string): (r: Result<Verdict, string>)
    ensures r.Success? ==> r.value.status == Same || r.value.status == Different
    ensures r.Failure? ==> r.error == FormatErrorMessage(text)
  {
    var lines := Split(text, '\n');
    var fromLine := StatusFromLines(lines);
    var correctName := NameFromLines(lines);
    var status := if fromLine == Error then BareStatus(text) else fromLine;
    if status == Same || status == Different then Success(Verdict(status, correctName))
    else Failure(FormatErrorMessage(text))
  }

  /** `analyzeNames` with the network call's outcome as input. A missing text
      counts as "". Every failure, of the call or of the parse, becomes an
      error whose message is passed on. */
  function AnalyzeNames(reply: ApiReply): (r: Result<Classification, string>)
    ensures r.Success? ==> r.value.status == Same || r.value.status == Different
    ensures r.Success? ==> reply.Replied? && r.value.sources == reply.chunks
    ensures reply.CallFailed? && reply.thrown.ErrorWithMessage? ==> r == Failure(reply.thrown.message)
    ensures reply == CallFailed(NonErrorValue) ==> r == Failure("An unknown API error occurred.")
    ensures reply.Replied? && ParseResponse(reply.text.GetOr("")).Failure? ==>
      r == Failure(FormatErrorMessage(reply.text.GetOr("")))
  {
    match reply
    case CallFailed(ErrorWithMessage(m)) => Failure(m)
    case CallFailed(NonErrorValue) => Failure("An unknown API error occurred.")
    case Replied(text, chunks) =>
      match ParseResponse(text.GetOr(""))
      case Success(v) => Success(Classification(v.status, v.correctName, chunks))
      case Failure(m) => Failure(m)
  }

  // ---------------------------------------------------------------- the status line

  /** The status value is the piece between the first and the second colon. */
  lemma StatusIsSecondPiece(a: string, v: string, rest: string)
    requires ':' !in a && ':' !in v
    requires rest == [] || rest[0] == ':'
    ensures StatusOfLine(a + ":" + v + rest) ==
      (var value := Upper(Trim(v));
       if Contains(value, "SAME") then Same
       else if Contains(value, "DIFFERENT") then Different
       else Error)
  {
    var line := a + ":" + v + rest;
    assert line == a + [':'] + (v + rest);
    SplitAtFirst(a, v + rest, ':');
    if rest == [] {
      assert v + rest == v;
      SplitWithout(v, ':');
    } else {
      assert v + rest == v + [':'] + rest[1..];
      SplitAtFirst(v, rest[1..], ':');
    }
  }

  /** "SAME" is looked for first and anywhere in the value, in any letter
      case: the value reads as SAME whatever surrounds it, so the prompt's own
      template line "Status: SAME | DIFFERENT" and a negated "Status: not the
      same" both read as SAME. Whatever follows a second colon is ignored. */
  lemma SameAnywhereReadsSame(a: string, x: string, w: string, y: string, rest: string)
    requires ':' !in a && ':' !in x + w + y
    requires rest == [] || rest[0] == ':'
    requires Upper(w) == "SAME"
    ensures StatusOfLine(a + ":" + x + w + y + rest) == Same
  {
    var v := x + w + y;
    assert a + ":" + x + w + y + rest == a + ":" + v + rest;
    StatusIsSecondPiece(a, v, rest);
    SameSurvivesTrim(x, w, y);
  }

  lemma SameSurvivesTrim(x: string, w: string, y: string)
    requires Upper(w) == "SAME"
    ensures Contains(Upper(Trim(x + w + y)), "SAME")
  {
    var v := x + w + y;
    assert v[|x|..|x| + 4] == w;
    assert UpperChar(w[0]) == 'S' && UpperChar(w[3]) == 'E';
    VisibleInsideTrim(v, |x|, 4);
    UpperKeepsContains(Trim(v), w);
  }

  /** A tag that holds a colon can only be found on a line that holds one. */
  lemma TagLineHasColon(line: string, tag: string)
    requires IsTagLine(line, tag) && ':' in tag
    ensures ':' in line
  {
    var u := Upper(Trim(line));
    var k :| 0 <= k < |tag| && tag[k] == ':';
    assert u[k] == ':';
    assert Trim(line)[k] == ':';
    InTrimInWhole(line, ':');
  }

  lemma InTrimInWhole(s: string, x: char)
    requires x in Trim(s)
    ensures x in s
  {
    var u := TrimStart(s);
    assert x in TrimEnd(u);
    assert x in u;
  }

  /** The first status line decides: the reply is accepted exactly when that
      line names a verdict, and then with that verdict. A later status line
      never counts, and the bare-verdict fallback cannot apply either, since
      the text holds a colon. */
  lemma FirstStatusLineDecides(text: string, i: nat)
    requires FirstTagLine(Split(text, '\n'), StatusTag) == Some(i)
    ensures ParseResponse(text).Success? <==> StatusOfLine(Split(text, '\n')[i]) != Error
    ensures ParseResponse(text).Success? ==> ParseResponse(text).value.status == StatusOfLine(Split(text, '\n')[i])
  {
    var lines := Split(text, '\n');
    var s := StatusOfLine(lines[i]);
    assert StatusFromLines(lines) == s;
    ParseAccepts(text, s);
    ParseVerdict(text, s);
    if s == Error {
      StatusLineHasColon(text, i);
      ColonRulesOutBareVerdict(text);
    }
  }

  /** The parse accepts a reply exactly when its status lines or its bare
      text name a verdict. */
  lemma ParseAccepts(text: string, s: AnalysisStatus)
    requires s == StatusFromLines(Split(text, '\n'))
    ensures ParseResponse(text).Success? <==> (s != Error || BareStatus(text) != Error)
  {
  }

  /** The verdict of an accepted reply: the line verdict when there is one,
      the bare verdict otherwise. */
  lemma ParseVerdict(text: string, s: AnalysisStatus)
    requires s == StatusFromLines(Split(text, '\n'))
    ensures ParseResponse(text).Success? ==>
      ParseResponse(text).value.status == (if s == Error then BareStatus(text) else s)
  {
  }

  /** A reply with a status line holds a colon. */
  lemma StatusLineHasColon(text: string, i: nat)
    requires FirstTagLine(Split(text, '\n'), StatusTag) == Some(i)
    ensures ':' in text
  {
    var lines := Split(text, '\n');
    TagLineHasColon(lines[i], StatusTag);
    PieceInWhole(text, '\n', i, ':');
  }

  /** A text with a colon in it is never a bare verdict. */
  lemma ColonRulesOutBareVerdict(text: string)
    requires ':' in text
    ensures BareStatus(text) == Error
  {
    NonSpaceSurvivesTrim(text, ':');
    var t := Trim(text);
    var k :| 0 <= k < |t| && t[k] == ':';
    assert Upper(t)[k] == ':';
    NotAVerdictWord(Upper(t), k);
  }

  lemma NotAVerdictWord(u: string, k: nat)
    requires k < |u| && u[k] == ':'
    ensures u != "SAME" && u != "DIFFERENT"
  {
  }

  // ---------------------------------------------------------------- the name line

  /** The name is everything after the first colon of its line, trimmed, with
      any later colons kept. */
  lemma NameAfterFirstColon(line: string, i: nat)
    requires IndexOf(line, ':') == Some(i)
    ensures NameOfLine(line) == Trim(line[i + 1..])
  {
    AfterFirst(line, ':', i);
  }

  /** Whether a reply is accepted depends on its status only; a missing name
      line leaves the name empty and does not make the parse fail. */
  lemma AcceptanceIgnoresName(text: string)
    ensures ParseResponse(text).Success? <==>
      (StatusFromLines(Split(text, '\n')) != Error || BareStatus(text) != Error)
    ensures FirstTagLine(Split(text, '\n'), NameTag).None? && ParseResponse(text).Success? ==>
      ParseResponse(text).value.correctName == ""
  {
    var lines := Split(text, '\n');
    ParseAccepts(text, StatusFromLines(lines));
    if FirstTagLine(lines, NameTag).None? {
      assert NameFromLines(lines) == "";
    }
  }

  /** An accepted reply carries the name on its first name line. */
  lemma FirstNameLineNames(text: string, j: nat)
    requires FirstTagLine(Split(text, '\n'), NameTag) == Some(j)
    ensures ParseResponse(text).Success? ==>
      ParseResponse(text).value.correctName == NameOfLine(Split(text, '\n')[j])
  {
    assert NameFromLines(Split(text, '\n')) == NameOfLine(Split(text, '\n')[j]);
  }

  // ---------------------------------------------------------------- the fallback

  /** Without any status line, the reply is accepted exactly when the whole
      text, trimmed and upper-cased, is SAME or DIFFERENT, and that is the verdict. */
  lemma BareVerdictFallback(text: string)
    requires FirstTagLine(Split(text, '\n'), StatusTag).None?
    ensures ParseResponse(text).Success? <==> (Upper(Trim(text)) == "SAME" || Upper(Trim(text)) == "DIFFERENT")
    ensures ParseResponse(text).Success? ==> StatusText(ParseResponse(text).value.status) == Upper(Trim(text))
  {
    ParseAccepts(text, Error);
    ParseVerdict(text, Error);
  }

  /** An empty or missing reply text is an error. */
  lemma EmptyReplyFails(chunks: seq<GroundingChunk>)
    ensures ParseResponse("").Failure?
    ensures AnalyzeNames(Replied(None, chunks)).Failure?
    ensures AnalyzeNames(Replied(Some(""), chunks)).Failure?
  {
    NoStatusLineInEmpty();
    BareVerdictFallback("");
  }

  lemma NoStatusLineInEmpty()
    ensures FirstTagLine(Split("", '\n'), StatusTag).None?
  {
    assert Split("", '\n') == [""];
    assert !IsTagLine("", StatusTag);
  }

  // ---------------------------------------------------------------- round trip with the prompt

  /** A reply in the two-line format the prompt demands. */
  function FormattedReply(status: AnalysisStatus, name: string): string {
    "Status: " + StatusText(status) + "\n" + "Correct Name: " + name
  }

  /** A line "Status: " followed by a word is found by the status search and
      not by the name search. */
  lemma StatusLineIsFound(line: string, word: string)
    requires line == "Status: " + word && word != [] && !IsSpace(word[|word| - 1])
    ensures IsTagLine(line, StatusTag) && !IsTagLine(line, NameTag)
  {
    TrimKeepsVisibleEnds(line);
    StatusLineUpper(line, word);
    DifferAt(Upper(line), NameTag, 0);
  }

  lemma StatusLineUpper(line: string, word: string)
    requires line == "Status: " + word
    ensures StartsWith(Upper(line), StatusTag)
  {
    assert line == "Status:" + (" " + word);
    StartsWithPrefix("Status:", " " + word);
    UpperKeepsStartsWith(line, "Status:");
    assert Upper("Status:") == StatusTag;
  }

  /** A line "Status: " followed by a visible word without colon reads as
      that word does. */
  lemma StatusLineValue(line: string, word: string)
    requires line == "Status: " + word && ':' !in word
    requires word != [] && !IsSpace(word[0]) && !IsSpace(word[|word| - 1])
    ensures StatusOfLine(line) ==
      (if Contains(Upper(word), "SAME") then Same
       else if Contains(Upper(word), "DIFFERENT") then Different
       else Error)
  {
    assert line == "Status" + ":" + (" " + word) + "";
    StatusIsSecondPiece("Status", " " + word, "");
    TrimAfterSpace(word);
  }

  lemma TrimAfterSpace(word: string)
    requires word != [] && !IsSpace(word[0]) && !IsSpace(word[|word| - 1])
    ensures Trim(" " + word) == word
  {
    TrimSkipsLeadingSpace(" ", word);
    TrimKeepsVisibleEnds(word);
  }

  /** The two verdict words read as themselves. */
  lemma SameWordReads()
    ensures Contains(Upper("SAME"), "SAME")
  {
    assert Upper("SAME") == "SAME";
    assert StartsWith("SAME", "SAME");
  }

  lemma DifferentWordReads()
    ensures !Contains(Upper("DIFFERENT"), "SAME") && Contains(Upper("DIFFERENT"), "DIFFERENT")
  {
    UpperOfDifferent();
    NoSameInDifferent();
    assert StartsWith("DIFFERENT", "DIFFERENT");
  }

  lemma UpperOfDifferent()
    ensures Upper("DIFFERENT") == "DIFFERENT"
  {
  }

  lemma NoSameInDifferent()
    ensures !Contains("DIFFERENT", "SAME")
  {
    if Contains("DIFFERENT", "SAME") {
      ContainsFirstChar("DIFFERENT", "SAME");
    }
  }

  /** The status line of a formatted reply: found by the status search, not
      by the name search, and read as its verdict. */
  lemma FormattedStatusLine(status: AnalysisStatus, line: string)
    requires status != Error && line == "Status: " + StatusText(status)
    ensures IsTagLine(line, StatusTag) && !IsTagLine(line, NameTag)
    ensures StatusOfLine(line) == status
  {
    var word := StatusText(status);
    assert word != [] && ':' !in word && !IsSpace(word[0]) && !IsSpace(word[|word| - 1]);
    StatusLineIsFound(line, word);
    StatusLineValue(line, word);
    if status == Same { SameWordReads(); } else { DifferentWordReads(); }
  }

  /** The name line of a formatted reply: found by the name search, and its
      name is the given one, trimmed. */
  lemma FormattedNameLine(name: string, line: string)
    requires line == "Correct Name: " + name
    ensures IsTagLine(line, NameTag)
    ensures NameOfLine(line) == Trim(name)
  {
    NameLineIsFound(line, name);
    NameLineName(line, name);
  }

  lemma NameLineName(line: string, name: string)
    requires line == "Correct Name: " + name
    ensures NameOfLine(line) == Trim(name)
  {
    assert line == "Correct Name" + [':'] + (" " + name);
    IndexOfPrefix("Correct Name", " " + name, ':');
    NameAfterFirstColon(line, 12);
    assert line[13..] == " " + name;
    TrimSkipsLeadingSpace(" ", name);
  }

  lemma NameLineIsFound(line: string, name: string)
    requires line == "Correct Name: " + name
    ensures IsTagLine(line, NameTag)
  {
    var p := "Correct Name:";
    assert line == p + (" " + name);
    TrimEndKeepsPrefix(p, " " + name);
    TrimStartVisible(line);
    UpperKeepsStartsWith(Trim(line), p);
    UpperOfNameTag();
  }

  lemma UpperOfNameTag()
    ensures Upper("Correct Name:") == NameTag
  {
  }

  /** Parsing a reply written in the demanded format gives back its verdict
      and its name, trimmed. */
  lemma ParseFormattedReply(status: AnalysisStatus, name: string)
    requires status != Error && '\n' !in name
    ensures ParseResponse(FormattedReply(status, name)) == Success(Verdict(status, Trim(name)))
  {
    var l0 := "Status: " + StatusText(status);
    var l1 := "Correct Name: " + name;
    FormattedLines(status, name);
    FormattedStatusLine(status, l0);
    FormattedNameLine(name, l1);
    StatusOnFirstLine([l0, l1]);
    NameOnSecondLine(l0, l1);
    ParseWithLineVerdict(FormattedReply(status, name));
  }

  lemma StatusOnFirstLine(lines: seq<string>)
    requires |lines| > 0 && IsTagLine(lines[0], StatusTag)
    ensures StatusFromLines(lines) == StatusOfLine(lines[0])
  {
  }

  lemma NameOnSecondLine(l0: string, l1: string)
    requires !IsTagLine(l0, NameTag) && IsTagLine(l1, NameTag)
    ensures NameFromLines([l0, l1]) == NameOfLine(l1)
  {
    var lines := [l0, l1];
    assert lines[0] == l0 && lines[1] == l1;
  }

  /** A reply whose status lines name a verdict is accepted with that verdict
      and the name of its first name line. */
  lemma ParseWithLineVerdict(text: string)
    requires StatusFromLines(Split(text, '\n')) != Error
    ensures ParseResponse(text) ==
      Success(Verdict(StatusFromLines(Split(text, '\n')), NameFromLines(Split(text, '\n'))))
  {
  }

  /** A formatted reply splits into its two lines. */
  lemma FormattedLines(status: AnalysisStatus, name: string)
    requires status != Error && '\n' !in name
    ensures Split(FormattedReply(status, name), '\n') == ["Status: " + StatusText(status), "Correct Name: " + name]
  {
    var l0 := "Status: " + StatusText(status);
    var l1 := "Correct Name: " + name;
    assert FormattedReply(status, name) == l0 + ['\n'] + l1;
    assert '\n' !in l0;
    assert '\n' !in l1;
    SplitAtFirst(l0, l1, '\n');
    SplitWithout(l1, '\n');
  }

  /** The same round trip through `analyzeNames`: the chunks come back as the sources. */
  lemma AnalyzeFormattedReply(status: AnalysisStatus, name: string, chunks: seq<GroundingChunk>)
    requires status != Error && '\n' !in name
    ensures AnalyzeNames(Replied(Some(FormattedReply(status, name)), chunks))
         == Success(Classification(status, Trim(name), chunks))
  {
    ParseFormattedReply(status, name);
    AnalyzeAcceptedText(FormattedReply(status, name), chunks, Verdict(status, Trim(name)));
  }

  /** A reply text the parse accepts is classified with its verdict and the chunks. */
  lemma AnalyzeAcceptedText(text: string, chunks: seq<GroundingChunk>, v: Verdict)
    requires ParseResponse(text) == Success(v)
    ensures AnalyzeNames(Replied(Some(text), chunks)) == Success(Classification(v.status, v.correctName, chunks))
  {
  }
}
