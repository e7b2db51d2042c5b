/**
 * The `POST` handler of src/app/api/generate/route.ts: it checks the subject and
 * the API key, builds the prompt, hands it to the generative model and cuts the
 * model's text into Q&A blocks.
 *
 * The model call is the parameter `generate`; the environment variable holding
 * the key is the parameter `apiKey`; reading the request body is `RequestJson`.
 */
module GenerateRoute {
  import opened Wrappers
  import opened JsString
  import opened Types

  /** What `await request.json()` gives: the body, or the error it throws. */
  datatype RequestJson = Parsed(body: GenerateRequestBody) | Malformed(message: string)

  /** What the model call gives: the completion text, or what it throws
      (`Some(message)` for an `Error`, `None` for any other thrown value). */
  datatype ModelReply = Generated(text: string) | Threw(message: Option<string>)

  /** The HTTP status and the JSON body of the response. */
  datatype RouteResponse = RouteResponse(status: nat, body: GenerateResponse)

  const SubjectRequired := "Subject is required"
  const KeyMissing := "API key is not configured"
  const GenerationFailed := "Failed to generate questions"

  /** The marker that starts a Q&A block in the model's text. */
  const QuestionMarker := "Q: "

  // The pieces of the prompt template.
  const PromptRequest := "Generate 10 technical interview questions"
  const PromptIntro := PromptRequest + " and detailed answers about "
  // Written in two pieces: the verifier sees the characters of a short literal
  // but not of this one whole, and the prompt's proofs need its first character.
  const CodeSentence := "Include relevant code " + "examples where appropriate."
  const RequirementsHead := "\n\nRequirements:\n" + "1. Format each Q&A pair exactly as \""
  const QuestionFormat := "Q: [question]"
  const FormatLink := "\" followed by \""
  const AnswerFormat := "A: [answer]"
  const RequirementsTail :=
    "\" Don't Use or add anything else in the Q&A pair. Strictly follow the format provided.\n" +
    "2. Make questions progressively more challenging\n" +
    "3. Include both theoretical and practical aspects\n" +
    "4. For code examples, wrap them in triple backticks\n" +
    "5. Provide detailed, educational explanations in the answers\n" +
    "6. Include real-world applications and examples where relevant\n" +
    "7. Don't Use * anywhere\n" +
    "\n" +
    "Please ensure consistent formatting and separate each Q&A pair with a blank line."

  /** `subject?.trim()` is truthy: the field is present and not blank. */
  predicate HasSubject(subject: Option<string>)
  {
    subject.Some? && !IsBlank(subject.value)
  }

  /** The check is the truthiness of the trimmed subject: it passes exactly when
      the subject is present and trims to a non-empty string. */
  lemma HasSubjectIsTrimmedTruthy(subject: Option<string>)
    ensures HasSubject(subject) <==> subject.Some? && Trim(subject.value) != ""
  {
  }

  /** `process.env.NEXT_PUBLIC_GEMINI_API_KEY` is truthy: present and non-empty. */
  predicate KeyConfigured(apiKey: Option<string>): (b: bool)
    ensures b <==> apiKey != None && apiKey != Some("")
  {
    apiKey.Some? && apiKey.value != ""
  }

  /** Where the optional code sentence goes: after the subject and ".\n". */
  function CodeSentencePosition(subject: string): nat {
    |PromptIntro| + |subject| + 2
  }

  /** The prompt template literal. */
  function Prompt(subject: string, includeCode: bool): (p: string)
    ensures StartsWith(p, PromptRequest)
    ensures OccursAt(p, subject, |PromptIntro|)
    ensures OccursAt(p, CodeSentence, CodeSentencePosition(subject)) <==> includeCode
  {
    var code := if includeCode then CodeSentence else "";
    var rest := RequirementsHead + QuestionFormat + FormatLink + AnswerFormat + RequirementsTail;
    TemplateSlices(PromptIntro, subject, ".\n", code, rest);
    assert PromptIntro[..|PromptRequest|] == PromptRequest;
    assert CodeSentence[0] == 'I' && rest[0] == '\n';
    PromptIntro + subject + ".\n" + code + rest
  }

  /** Where each piece of a five-piece template sits in the result. */
  lemma TemplateSlices(a: string, b: string, c: string, d: string, e: string)
    ensures var t := a + b + c + d + e;
            && t[..|a|] == a
            && t[|a|..|a| + |b|] == b
            && t[|a| + |b| + |c|..] == d + e
  {
  }

  /** The prompt asks for the "Q: [question]" / "A: [answer]" format. */
  lemma PromptStatesFormat(subject: string, includeCode: bool)
    ensures Contains(Prompt(subject, includeCode), QuestionFormat)
    ensures Contains(Prompt(subject, includeCode), AnswerFormat)
  {
    var code := if includeCode then CodeSentence else "";
    FormatMarkersAt(PromptIntro + subject + ".\n" + code, RequirementsHead, QuestionFormat,
                    FormatLink, AnswerFormat, RequirementsTail);
  }

  /** Where the two format markers sit in a prompt of this shape. */
  lemma FormatMarkersAt(lead: string, head: string, question: string, link: string, answer: string, tail: string)
    ensures var p := lead + (head + question + link + answer + tail);
            && OccursAt(p, question, |lead| + |head|)
            && OccursAt(p, answer, |lead| + |head| + |question| + |link|)
  {
    var p := lead + (head + question + link + answer + tail);
    assert p == (lead + head) + question + (link + answer + tail);
    OccursBetween(lead + head, question, link + answer + tail);
    assert p == (lead + head + question + link) + answer + tail;
    OccursBetween(lead + head + question + link, answer, tail);
  }

  /** Asking for code examples inserts exactly the code sentence; otherwise the
      empty string stands in its place. */
  lemma PromptCodeSentence(subject: string)
    ensures var k := CodeSentencePosition(subject);
            Prompt(subject, true) == Prompt(subject, false)[..k] + CodeSentence + Prompt(subject, false)[k..]
  {
    var rest := RequirementsHead + QuestionFormat + FormatLink + AnswerFormat + RequirementsTail;
    var lead := PromptIntro + subject + ".\n";
    InsertBetween(lead, CodeSentence, rest);
  }

  lemma InsertBetween(a: string, b: string, c: string)
    ensures a + b + c == (a + "" + c)[..|a|] + b + (a + "" + c)[|a|..]
  {
    assert a + "" + c == a + c;
    assert (a + c)[..|a|] == a;
    assert (a + c)[|a|..] == c;
  }

  /** `r` is a split of `s` before its markers: the pieces concatenate to `s`;
      the first piece runs from the start up to the first marker that is not at
      index 0; every later piece starts with the marker; no piece holds the
      marker anywhere but at its own index 0. */
  ghost predicate IsMarkerSplit(s: string, r: seq<string>) {
    && |r| >= 1 && Concat(r) == s
    && |r[0]| <= |s| && r[0] == s[..|r[0]|]
    && (|s| > 0 ==> |r[0]| > 0)
    && (forall j :: 0 < j < |r[0]| ==> !OccursAt(s, QuestionMarker, j))
    && (|r| > 1 ==> OccursAt(s, QuestionMarker, |r[0]|))
    && (forall k, j :: 0 <= k < |r| && 0 < j ==> !OccursAt(r[k], QuestionMarker, j))
    && (forall k :: 0 < k < |r| ==> StartsWith(r[k], QuestionMarker))
  }

  /** `generatedText.split(/(?=Q: )/)`: the text is cut before every occurrence
      of "Q: " except one at index 0, and each cut keeps the marker in the piece
      that follows it. The empty text gives one empty piece. */
  function SplitBeforeMarker(s: string): (r: seq<string>)
    ensures IsMarkerSplit(s, r)
    decreases |s|
  {
    if |s| == 0 then [""]
    else
      var rest := SplitBeforeMarker(s[1..]);
      if StartsWith(s[1..], QuestionMarker) then
        CutBeforeMarker(s, rest);
        [[s[0]]] + rest
      else
        ExtendFirstPiece(s, rest);
        [[s[0]] + rest[0]] + rest[1..]
  }

  /** The step where the text after the first character starts with the marker. */
  lemma CutBeforeMarker(s: string, rest: seq<string>)
    requires |s| > 0 && IsMarkerSplit(s[1..], rest) && StartsWith(s[1..], QuestionMarker)
    ensures IsMarkerSplit(s, [[s[0]]] + rest)
  {
    OccursInSuffixEverywhere(s, QuestionMarker, 1);
    assert StartsWith(rest[0], QuestionMarker) by {
      if |rest| > 1 {
        MarkerDoesNotOverlap(s[1..], |rest[0]|);
      } else {
        assert Concat(rest) == rest[0] + Concat(rest[1..]);
      }
      OccursInPrefix(s[1..], QuestionMarker, |rest[0]|, 0);
    }
    var r := [[s[0]]] + rest;
    assert r[1..] == rest;
    assert Concat(r) == [s[0]] + Concat(rest);
  }

  /** The step where the first character joins the first piece. */
  lemma ExtendFirstPiece(s: string, rest: seq<string>)
    requires |s| > 0 && IsMarkerSplit(s[1..], rest) && !StartsWith(s[1..], QuestionMarker)
    ensures IsMarkerSplit(s, [[s[0]] + rest[0]] + rest[1..])
  {
    OccursInSuffixEverywhere(s, QuestionMarker, 1);
    var first := [s[0]] + rest[0];
    assert first == s[..|first|];
    forall j | 0 < j < |first| ensures !OccursAt(s, QuestionMarker, j) {
      assert !OccursAt(s[1..], QuestionMarker, j - 1);
    }
    forall j | 0 < j ensures !OccursAt(first, QuestionMarker, j) {
      if OccursAt(first, QuestionMarker, j) {
        OccursInPrefix(s, QuestionMarker, |first|, j);
      }
    }
    var r := [first] + rest[1..];
    assert r[1..] == rest[1..];
    assert Concat(r) == first + Concat(rest[1..]);
    assert Concat(rest) == rest[0] + Concat(rest[1..]);
    assert |r| > 1 ==> OccursAt(s[1..], QuestionMarker, |rest[0]|);
    forall k | 0 < k < |r| ensures StartsWith(r[k], QuestionMarker) {
      assert r[k] == rest[k];
    }
    forall k, j | 0 <= k < |r| && 0 < j ensures !OccursAt(r[k], QuestionMarker, j) {
      if k > 0 {
        assert r[k] == rest[k];
      }
    }
  }

  /** Two occurrences of "Q: " cannot overlap. */
  lemma MarkerDoesNotOverlap(s: string, n: int)
    requires OccursAt(s, QuestionMarker, 0) && OccursAt(s, QuestionMarker, n) && n > 0
    ensures n >= |QuestionMarker|
  {
    assert s[0] == 'Q' && s[1] == ':' && s[2] == ' ';
    assert s[n] == 'Q';
  }

  /** The blocks made from the pieces: the non-blank pieces, trimmed, in order
      (`.filter(qa => qa.trim()).map(qa => qa.trim())`). */
  function BlocksOf(pieces: seq<string>): (blocks: seq<string>)
    ensures |blocks| <= |pieces|
    ensures forall k :: 0 <= k < |blocks| ==> blocks[k] != [] && IsTrimmed(blocks[k])
  {
    TrimAll(Filter(pieces, HasContent))
  }

  /** Each string trimmed, in order (`.map(qa => qa.trim())`). */
  function TrimAll(xs: seq<string>): (ys: seq<string>)
    ensures |ys| == |xs|
    ensures forall k :: 0 <= k < |xs| ==> ys[k] == Trim(xs[k])
  {
    seq(|xs|, k requires 0 <= k < |xs| => Trim(xs[k]))
  }

  /** The Q&A blocks of the model's text. */
  function SplitBlocks(text: string): (blocks: seq<string>)
    ensures forall k :: 0 <= k < |blocks| ==> blocks[k] != [] && IsTrimmed(blocks[k])
    ensures forall k, j :: 0 <= k < |blocks| && 0 < j ==> !OccursAt(blocks[k], QuestionMarker, j)
  {
    var pieces := SplitBeforeMarker(text);
    BlocksHoldMarkerOnlyAtStart(pieces);
    BlocksOf(pieces)
  }

  /** The blocks keep the order of the pieces they come from: a blank piece
      gives no block, any other gives its trimmed text. */
  lemma {:induction false} BlocksOfAppend(a: seq<string>, b: seq<string>)
    ensures BlocksOf(a + b) == BlocksOf(a) + BlocksOf(b)
  {
    FilterAppend(a, b, HasContent);
    TrimAllAppend(Filter(a, HasContent), Filter(b, HasContent));
  }

  lemma TrimAllAppend(x: seq<string>, y: seq<string>)
    ensures TrimAll(x + y) == TrimAll(x) + TrimAll(y)
  {
  }

  lemma BlocksOfPiece(piece: string)
    ensures BlocksOf([piece]) == if IsBlank(piece) then [] else [Trim(piece)]
  {
    assert [piece][1..] == [];
  }

  /** Every block is a trimmed non-blank piece. */
  lemma BlockFromPiece(pieces: seq<string>, k: nat)
    requires k < |BlocksOf(pieces)|
    ensures exists i :: 0 <= i < |pieces| && !IsBlank(pieces[i]) && BlocksOf(pieces)[k] == Trim(pieces[i])
  {
    var kept := Filter(pieces, HasContent);
    assert kept[k] in pieces;
  }

  /** When "Q: " occurs in the pieces at most at their index 0, it occurs in the
      blocks made from them at most at index 0 too. */
  lemma BlocksHoldMarkerOnlyAtStart(pieces: seq<string>)
    requires forall k, j :: 0 <= k < |pieces| && 0 < j ==> !OccursAt(pieces[k], QuestionMarker, j)
    ensures var blocks := BlocksOf(pieces);
            forall k, j :: 0 <= k < |blocks| && 0 < j ==> !OccursAt(blocks[k], QuestionMarker, j)
  {
    var blocks := BlocksOf(pieces);
    forall k, j | 0 <= k < |blocks| && 0 < j ensures !OccursAt(blocks[k], QuestionMarker, j) {
      BlockFromPiece(pieces, k);
      var i :| 0 <= i < |pieces| && !IsBlank(pieces[i]) && blocks[k] == Trim(pieces[i]);
      if OccursAt(blocks[k], QuestionMarker, j) {
        TrimOccurrence(pieces[i], QuestionMarker, j);
      }
    }
  }

  /** A piece that starts with the marker gives a block that starts with "Q:"
      (the space after the colon may be trimmed away). */
  lemma MarkedPieceGivesQuestionBlock(piece: string)
    requires StartsWith(piece, QuestionMarker)
    ensures StartsWith(Trim(piece), "Q:")
  {
    assert piece[..2] == piece[..3][..2];
    TrimKeepsPrefix(piece, "Q:");
  }

  lemma MarkedPiecesGiveQuestionBlocks(pieces: seq<string>)
    requires forall i :: 0 <= i < |pieces| ==> StartsWith(pieces[i], QuestionMarker)
    ensures forall k :: 0 <= k < |BlocksOf(pieces)| ==> StartsWith(BlocksOf(pieces)[k], "Q:")
  {
    forall k | 0 <= k < |BlocksOf(pieces)| ensures StartsWith(BlocksOf(pieces)[k], "Q:") {
      BlockFromPiece(pieces, k);
      var i :| 0 <= i < |pieces| && !IsBlank(pieces[i]) && BlocksOf(pieces)[k] == Trim(pieces[i]);
      MarkedPieceGivesQuestionBlock(pieces[i]);
    }
  }

  /** Every block starts with "Q:", except possibly a first one made of the
      text before the first marker. */
  lemma BlocksStartWithQuestion(text: string)
    ensures var blocks := SplitBlocks(text);
            forall k :: 0 < k < |blocks| ==> StartsWith(blocks[k], "Q:")
    ensures var blocks := SplitBlocks(text);
            |blocks| > 0 ==> StartsWith(blocks[0], "Q:") || blocks[0] == Trim(SplitBeforeMarker(text)[0])
  {
    var pieces := SplitBeforeMarker(text);
    var later := pieces[1..];
    assert pieces == [pieces[0]] + later;
    BlocksOfAppend([pieces[0]], later);
    BlocksOfPiece(pieces[0]);
    forall i | 0 <= i < |later| ensures StartsWith(later[i], QuestionMarker) {
      assert later[i] == pieces[i + 1];
    }
    MarkedPiecesGiveQuestionBlocks(later);
  }

  /** There is one piece more than there are markers past index 0. */
  lemma {:induction false} PieceCount(s: string)
    ensures |SplitBeforeMarker(s)| == if |s| == 0 then 1 else Count(s[1..], QuestionMarker) + 1
    decreases |s|
  {
    if |s| > 0 {
      PieceCount(s[1..]);
      if |s| > 1 {
        assert s[1..][1..] == s[2..];
      }
    }
  }

  /** There are at most as many blocks as markers, plus one. */
  lemma BlockCount(text: string)
    ensures |SplitBlocks(text)| <= Count(text, QuestionMarker) + 1
  {
    PieceCount(text);
  }

  /** The response of `POST`. The subject is checked first, then the key; only
      then is the model called. Every failure carries an empty question list. */
  function Post(request: RequestJson, apiKey: Option<string>, generate: string -> ModelReply): (r: RouteResponse)
    ensures r.status == 200 || r.status == 400 || r.status == 500
    ensures r.status != 200 <==> r.body.error.Some?
    ensures r.status != 200 ==> r.body.questions == []
    ensures r.status == 200 ==> forall k :: 0 <= k < |r.body.questions| ==>
              r.body.questions[k] != [] && IsTrimmed(r.body.questions[k])
    ensures request.Parsed? && !HasSubject(request.body.subject) ==>
              r == RouteResponse(400, GenerateResponse([], Some(SubjectRequired)))
    ensures request.Parsed? && HasSubject(request.body.subject) && !KeyConfigured(apiKey) ==>
              r == RouteResponse(500, GenerateResponse([], Some(KeyMissing)))
    ensures request.Malformed? ==> r.status == 500 && r.body.error == Some(request.message)
    ensures request.Parsed? && HasSubject(request.body.subject) && KeyConfigured(apiKey) ==>
              var reply := generate(Prompt(request.body.subject.value, request.body.includeCode));
              && (reply.Generated? ==> r.status == 200 && r.body.questions == SplitBlocks(reply.text))
              && (reply.Threw? && reply.message.Some? ==> r.status == 500 && r.body.error == reply.message)
              && (reply == Threw(None) ==> r.status == 500 && r.body.error == Some(GenerationFailed))
  {
    match request
    case Malformed(message) => RouteResponse(500, GenerateResponse([], Some(message)))
    case Parsed(body) =>
      if !HasSubject(body.subject) then
        RouteResponse(400, GenerateResponse([], Some(SubjectRequired)))
      else if !KeyConfigured(apiKey) then
        RouteResponse(500, GenerateResponse([], Some(KeyMissing)))
      else
        match generate(Prompt(body.subject.value, body.includeCode))
        case Threw(message) =>
          var text := if message.Some? then message.value else GenerationFailed;
          RouteResponse(500, GenerateResponse([], Some(text)))
        case Generated(text) =>
          RouteResponse(200, GenerateResponse(SplitBlocks(text), None))
  }
}
