/**
 * How the ingestion loop reads the language model's reply for one review
 * (t65.py:418-439): the reply is split on "\n"; line 0 is the status, line 1
 * the reason and line 2, when present and non-empty, the result. A reply
 * without a second line makes `lines[1]` raise IndexError, which nothing
 * catches.
 */
module AnswerParser {
  import opened Wrappers
  import opened Text

  const StatusLabel: string := "Status:"
  const ReasonLabel: string := "Reason:"
  const ResultLabel: string := "Result:"

  /** The (status, reason, result) triple stored for a classified review. */
  datatype Verdict = Verdict(status: string, reason: string, result: string)

  /** Either the parsed triple or the uncaught IndexError of `lines[1]`. */
  datatype Parse = Parsed(verdict: Verdict) | IndexError

  /** The only status alias the code rewrites. */
  function NormalizeStatus(s: string): (r: string)
    ensures s == "In Violation" ==> r == "Violation"
    ensures r != "In Violation"
    ensures s != "In Violation" ==> r == s
  {
    if s == "In Violation" then "Violation" else s
  }

  /** The result used when the reply has no usable third line. */
  function DefaultResult(status: string): (r: string)
    ensures r in {"no", "yes", "maybe"}
    ensures r == "no" <==> status == "Compliant"
    ensures r == "yes" <==> status == "Violation"
  {
    if status == "Compliant" then "no"
    else if status == "Violation" then "yes"
    else "maybe"
  }

  /** Line 0 with every "Status:" removed, stripped, alias rewritten. */
  function StatusOf(line: string): (r: string)
    ensures r != "In Violation"
    ensures IsStripped(r)
  {
    NormalizeStatus(Strip(RemoveAll(line, StatusLabel)))
  }

  /** Line 1 with every "Reason:" removed, stripped. */
  function ReasonOf(line: string): (r: string)
    ensures IsStripped(r) && |r| <= |line|
  {
    Strip(RemoveAll(line, ReasonLabel))
  }

  /** Line 2 with every "Result:" removed, stripped, lower-cased. */
  function ResultOf(line: string): (r: string)
    ensures NoUpper(r) && |r| <= |line|
  {
    Lower(Strip(RemoveAll(line, ResultLabel)))
  }

  /** The parse of t65.py:418-438. */
  function ParseAnswer(answer: string): (r: Parse)
    ensures r.IndexError? <==> '\n' !in answer
    ensures r.Parsed? ==> r.verdict.status != "In Violation"
    ensures r.Parsed? ==> IsStripped(r.verdict.reason)
  {
    var lines := Split(answer, '\n');
    SplitCount(answer, '\n');
    if |lines| < 2 then IndexError
    else
      var status := StatusOf(lines[0]);
      var result := if |lines| >= 3 && lines[2] != "" then ResultOf(lines[2]) else DefaultResult(status);
      Parsed(Verdict(status, ReasonOf(lines[1]), result))
  }

  lemma SplitTwo(l0: string, l1: string)
    requires '\n' !in l0 && '\n' !in l1
    ensures Split(l0 + "\n" + l1, '\n') == [l0, l1]
  {
    SplitWhole(l1, '\n');
    assert l0 + "\n" + l1 == l0 + ['\n'] + l1;
    SplitFirst(l0, '\n', l1);
  }

  lemma SplitThree(l0: string, l1: string, l2: string, tail: string)
    requires '\n' !in l0 && '\n' !in l1 && '\n' !in l2
    requires tail == [] || tail[0] == '\n'
    ensures var lines := Split(l0 + "\n" + l1 + "\n" + l2 + tail, '\n');
      |lines| >= 3 && lines[0] == l0 && lines[1] == l1 && lines[2] == l2
  {
    var b := l2 + tail;
    assert Split(b, '\n')[0] == l2 by {
      if tail == [] {
        assert b == l2;
        SplitWhole(l2, '\n');
      } else {
        assert b == l2 + ['\n'] + tail[1..];
        SplitFirst(l2, '\n', tail[1..]);
      }
    }
    var a1 := l1 + "\n" + b;
    assert a1 == l1 + ['\n'] + b;
    SplitFirst(l1, '\n', b);
    assert l0 + "\n" + l1 + "\n" + l2 + tail == l0 + ['\n'] + a1;
    SplitFirst(l0, '\n', a1);
  }

  /** A two-line reply: status and reason from the two lines, the result
      defaulted from the status. */
  lemma TwoLineReply(l0: string, l1: string)
    requires '\n' !in l0 && '\n' !in l1
    ensures ParseAnswer(l0 + "\n" + l1) == Parsed(Verdict(StatusOf(l0), ReasonOf(l1), DefaultResult(StatusOf(l0))))
  {
    SplitTwo(l0, l1);
  }

  /** A reply of three or more lines: the third line decides the result when it
      is non-empty, even when it strips to ""; an empty third line falls back
      to the default. Lines beyond the third are ignored. */
  lemma ThreeLineReply(l0: string, l1: string, l2: string, tail: string)
    requires '\n' !in l0 && '\n' !in l1 && '\n' !in l2
    requires tail == [] || tail[0] == '\n'
    ensures ParseAnswer(l0 + "\n" + l1 + "\n" + l2 + tail)
         == Parsed(Verdict(StatusOf(l0), ReasonOf(l1),
                           if l2 != "" then ResultOf(l2) else DefaultResult(StatusOf(l0))))
  {
    SplitThree(l0, l1, l2, tail);
  }

  /** The reply the prompt asks for: the three labelled lines. */
  function Render(v: Verdict): string {
    "Status: " + v.status + "\nReason: " + v.reason + "\nResult: " + v.result
  }

  /** A field that survives a labelled line unchanged: one line, no
      surrounding whitespace, no copy of its own tag. */
  predicate CleanField(s: string, tag: string)
    requires tag != []
  {
    '\n' !in s && IsStripped(s) && !HasSub(s, tag)
  }

  /** The triples `Render` can carry through the parse. */
  predicate Renderable(v: Verdict) {
    && CleanField(v.status, StatusLabel) && v.status != "In Violation"
    && CleanField(v.reason, ReasonLabel)
    && CleanField(v.result, ResultLabel) && NoUpper(v.result)
  }

  /** Removing the label from "<label> <field>" and stripping gives back the
      field. */
  lemma LabelledLine(tag: string, field: string, line: string)
    requires tag != [] && tag[0] != ' '
    requires IsStripped(field) && !HasSub(field, tag)
    requires line == tag + " " + field
    ensures Strip(RemoveAll(line, tag)) == field
  {
    assert line == tag + ([' '] + field);
    RemoveAllLeading(tag, [' '] + field);
    AbsentPrepend(' ', field, tag);
    RemoveAllAbsent([' '] + field, tag);
    StripPadded(" ", field, "");
    assert " " + field + "" == [' '] + field;
  }

  lemma StatusLine(status: string)
    requires CleanField(status, StatusLabel)
    ensures Strip(RemoveAll("Status: " + status, StatusLabel)) == status
    ensures '\n' !in "Status: " + status
  {
    var line := "Status: " + status;
    assert '\n' !in "Status: ";
    assert line == StatusLabel + " " + status;
    LabelledLine(StatusLabel, status, line);
  }

  lemma ReasonLine(reason: string)
    requires CleanField(reason, ReasonLabel)
    ensures ReasonOf("Reason: " + reason) == reason
    ensures '\n' !in "Reason: " + reason
  {
    var line := "Reason: " + reason;
    assert '\n' !in "Reason: ";
    assert line == ReasonLabel + " " + reason;
    LabelledLine(ReasonLabel, reason, line);
  }

  lemma ResultLine(result: string)
    requires CleanField(result, ResultLabel) && NoUpper(result)
    ensures ResultOf("Result: " + result) == result
    ensures '\n' !in "Result: " + result
  {
    assert '\n' !in "Result: ";
    ResultLineStripped(result);
    LowerOfLower(result);
  }

  lemma ResultLineStripped(result: string)
    requires CleanField(result, ResultLabel)
    ensures Strip(RemoveAll("Result: " + result, ResultLabel)) == result
  {
    var line := "Result: " + result;
    assert line == ResultLabel + " " + result;
    LabelledLine(ResultLabel, result, line);
  }

  lemma RenderedLines(v: Verdict)
    ensures Render(v) == ("Status: " + v.status) + "\n" + ("Reason: " + v.reason) + "\n" + ("Result: " + v.result) + []
  {
  }

  /** Round trip: parsing the rendered reply gives back the triple. */
  lemma RenderThenParse(v: Verdict)
    requires Renderable(v)
    ensures ParseAnswer(Render(v)) == Parsed(v)
  {
    var l0, l1, l2 := "Status: " + v.status, "Reason: " + v.reason, "Result: " + v.result;
    StatusLine(v.status);
    ReasonLine(v.reason);
    ResultLine(v.result);
    RenderedLines(v);
    ThreeLineReply(l0, l1, l2, []);
  }

  /** A field without ':' cannot contain any of the three labels. */
  lemma CleanWithoutColon(s: string, tag: string)
    requires tag in {StatusLabel, ReasonLabel, ResultLabel}
    requires '\n' !in s && ':' !in s && IsStripped(s)
    ensures CleanField(s, tag)
  {
    assert tag[6] == ':';
    AbsentByChar(s, tag, ':');
  }

  /** The reply the prompt asks for, for a violation. */
  lemma ViolationRendered()
    ensures Render(Verdict("Violation", "contains profanity", "yes"))
         == "Status: Violation\nReason: contains profanity\nResult: yes"
  {
    assert "Status: " + "Violation" == "Status: Violation";
    assert "Status: Violation" + "\nReason: " == "Status: Violation\nReason: ";
    assert "Status: Violation\nReason: " + "contains profanity" == "Status: Violation\nReason: contains profanity";
    assert "\nResult: " + "yes" == "\nResult: yes";
    assert "Status: Violation\nReason: contains profanity" + "\nResult: yes"
        == "Status: Violation\nReason: contains profanity\nResult: yes";
  }

  /** A well-formed violation reply is stored exactly as given. */
  lemma ViolationExample(answer: string)
    requires answer == "Status: Violation\nReason: contains profanity\nResult: yes"
    ensures ParseAnswer(answer) == Parsed(Verdict("Violation", "contains profanity", "yes"))
  {
    var v := Verdict("Violation", "contains profanity", "yes");
    ViolationRendered();
    ViolationRenderable();
    RenderThenParse(v);
  }

  lemma ViolationRenderable()
    ensures Renderable(Verdict("Violation", "contains profanity", "yes"))
  {
    CleanWithoutColon("Violation", StatusLabel);
    CleanWithoutColon("contains profanity", ReasonLabel);
    CleanWithoutColon("yes", ResultLabel);
  }

  /** "In Violation" is rewritten to "Violation" before the default is
      chosen, so a two-line reply with that status gets result "yes". */
  lemma InViolationDefaultsToYes(reasonLine: string)
    requires '\n' !in reasonLine
    ensures ParseAnswer("Status: " + "In Violation" + "\n" + reasonLine)
         == Parsed(Verdict("Violation", ReasonOf(reasonLine), "yes"))
  {
    AbsentByChar("In Violation", StatusLabel, ':');
    StatusLine("In Violation");
    TwoLineReply("Status: " + "In Violation", reasonLine);
  }

  /** A compliant two-line reply defaults to result "no". */
  lemma CompliantDefaultsToNo(reasonLine: string)
    requires '\n' !in reasonLine
    ensures ParseAnswer("Status: " + "Compliant" + "\n" + reasonLine)
         == Parsed(Verdict("Compliant", ReasonOf(reasonLine), "no"))
  {
    AbsentByChar("Compliant", StatusLabel, ':');
    StatusLine("Compliant");
    TwoLineReply("Status: " + "Compliant", reasonLine);
  }

  /** A non-empty third line that strips to "" is not defaulted: the result
      is "", whatever the status. */
  lemma BlankResultLine(statusLine: string, reasonLine: string, pad: string)
    requires '\n' !in statusLine && '\n' !in reasonLine
    requires AllSpace(pad) && '\n' !in pad
    ensures ParseAnswer(statusLine + "\n" + reasonLine + "\n" + ("Result:" + pad)).verdict.result == ""
  {
    var l2 := "Result:" + pad;
    RemoveAllLeading(ResultLabel, pad);
    AbsentByChar(pad, ResultLabel, ':');
    RemoveAllAbsent(pad, ResultLabel);
    StripPadded(pad, "", "");
    assert pad + "" + "" == pad;
    assert statusLine + "\n" + reasonLine + "\n" + l2 == statusLine + "\n" + reasonLine + "\n" + l2 + [];
    ThreeLineReply(statusLine, reasonLine, l2, []);
  }
}
