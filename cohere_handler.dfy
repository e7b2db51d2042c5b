/**
 * The `handler` of src/app/api/generate/generateQuestions.ts: it checks the
 * subject, asks the Cohere text-generation endpoint for questions and returns
 * the non-blank lines of the generated text.
 *
 * The HTTP call is the parameter `cohere`: `Some(text)` is
 * `response.data.generations[0].text`, `None` is anything thrown on the way.
 */
module CohereHandler {
  import opened Wrappers
  import opened JsString

  /** The status and the JSON body sent with `res.status(...).json(...)`. */
  datatype HandlerResponse = HandlerResponse(status: nat, questions: Option<seq<string>>, error: Option<string>)

  const SubjectRequired := "Subject is required"
  const GenerationFailed := "Failed to generate questions"
  const PromptIntro := "Generate 10 interview questions and answers for the subject: "

  /** `!subject` is false: the field is present and not the empty string. A
      subject made only of whitespace passes. */
  predicate HasSubject(subject: Option<string>): (b: bool)
    ensures b <==> subject != None && subject != Some("")
    ensures subject.Some? && HasContent(subject.value) ==> b
  {
    subject.Some? && subject.value != ""
  }

  /** The prompt: a fixed request for 10 questions followed by the subject. */
  function Prompt(subject: string): (p: string)
    ensures StartsWith(p, "Generate 10 interview questions")
    ensures OccursAt(p, subject, |PromptIntro|) && |p| == |PromptIntro| + |subject|
  {
    var p := PromptIntro + subject;
    assert p[..|PromptIntro|] == PromptIntro;
    assert p[|PromptIntro|..] == subject;
    p
  }

  /** `generatedText.split('\n').filter(line => line.trim() !== '')`: the
      non-blank lines of the text, untrimmed, in order. */
  function NonBlankLines(text: string): (lines: seq<string>)
    ensures forall k :: 0 <= k < |lines| ==> !Contains(lines[k], "\n") && !IsBlank(lines[k])
  {
    Filter(Split(text, "\n"), HasContent)
  }

  /** There are at most as many returned lines as newlines, plus one. */
  lemma NonBlankLineCount(text: string)
    ensures |NonBlankLines(text)| <= Count(text, "\n") + 1
  {
    SplitOnCharCount(text, '\n');
  }

  /** For any way of writing the text as lines joined by newlines, the returned
      elements are exactly the non-blank ones among those lines, in order. */
  lemma NonBlankLinesOfJoin(text: string, lines: seq<string>)
    requires |lines| >= 1 && Join(lines, "\n") == text
    requires forall k :: 0 <= k < |lines| ==> !Contains(lines[k], "\n")
    ensures NonBlankLines(text) == Filter(lines, HasContent)
  {
    SplitOnCharUnique(text, '\n', lines);
  }

  /** The handler's response. */
  function Handle(subject: Option<string>, cohere: string -> Option<string>): (r: HandlerResponse)
    ensures r.status == 200 || r.status == 400 || r.status == 500
    ensures r.status == 200 <==> r.questions.Some?
    ensures r.status == 200 <==> r.error.None?
    ensures !HasSubject(subject) ==> r == HandlerResponse(400, None, Some(SubjectRequired))
    ensures HasSubject(subject) && cohere(Prompt(subject.value)).None? ==>
              r == HandlerResponse(500, None, Some(GenerationFailed))
    ensures HasSubject(subject) && cohere(Prompt(subject.value)).Some? ==>
              r == HandlerResponse(200, Some(NonBlankLines(cohere(Prompt(subject.value)).value)), None)
    ensures r.status == 200 ==> forall k :: 0 <= k < |r.questions.value| ==>
              !Contains(r.questions.value[k], "\n") && !IsBlank(r.questions.value[k])
  {
    if !HasSubject(subject) then HandlerResponse(400, None, Some(SubjectRequired))
    else
      match cohere(Prompt(subject.value))
      case None => HandlerResponse(500, None, Some(GenerationFailed))
      case Some(text) => HandlerResponse(200, Some(NonBlankLines(text)), None)
  }

  /** A subject of spaces is sent on to the model, not rejected. */
  lemma WhitespaceSubjectAccepted(cohere: string -> Option<string>)
    ensures Handle(Some(" "), cohere).status != 400
  {
  }

  /** An example: blank lines go, the other lines keep their surrounding spaces. */
  lemma NonBlankLinesExample()
    ensures NonBlankLines("  Q1 \n\n A1") == ["  Q1 ", " A1"]
  {
    var lines := ["  Q1 ", "", " A1"];
    ExampleJoin(lines);
    ExampleNoNewline(lines);
    NonBlankLinesOfJoin("  Q1 \n\n A1", lines);
    ExampleFilter(lines);
  }

  lemma ExampleNoNewline(lines: seq<string>)
    requires lines == ["  Q1 ", "", " A1"]
    ensures forall k :: 0 <= k < |lines| ==> !Contains(lines[k], "\n")
  {
    forall k, i | 0 <= k < |lines| && 0 <= i <= |lines[k]| ensures !OccursAt(lines[k], "\n", i) {
      OccursAtFirstChar(lines[k], "\n", i);
    }
  }

  lemma ExampleJoin(lines: seq<string>)
    requires lines == ["  Q1 ", "", " A1"]
    ensures Join(lines, "\n") == "  Q1 \n\n A1"
  {
    var tail := lines[1..];
    assert tail[1..] == [" A1"];
    assert Join(tail[1..], "\n") == " A1";
    assert Join(tail, "\n") == "" + "\n" + " A1";
    assert Join(lines, "\n") == "  Q1 " + "\n" + "\n A1";
  }

  lemma ExampleFilter(lines: seq<string>)
    requires lines == ["  Q1 ", "", " A1"]
    ensures Filter(lines, HasContent) == ["  Q1 ", " A1"]
  {
    assert !IsWhitespace(lines[0][2]) && !IsWhitespace(lines[2][1]);
    assert HasContent(lines[0]) && !HasContent(lines[1]) && HasContent(lines[2]);
    assert lines[2..][1..] == [];
    assert Filter(lines[2..], HasContent) == [" A1"];
    assert lines[1..][1..] == lines[2..];
    assert Filter(lines[1..], HasContent) == [" A1"];
  }
}
