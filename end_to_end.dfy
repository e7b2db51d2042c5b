/**
 * The page of src/app/page.tsx posting to the route of
 * src/app/api/generate/route.ts: what the route answers becomes the page's
 * fetch outcome, and each block it returns becomes one question card.
 */
module EndToEnd {
  import opened Wrappers
  import opened JsString
  import opened Types
  import Route = GenerateRoute
  import Page = QuestionPage

  /** What the page's `fetch` makes of a route response: `response.ok` holds for
      a status from 200 to 299, and then `data.questions` is the block list. */
  function FetchOutcomeOf(response: Route.RouteResponse): (outcome: Page.FetchOutcome)
    ensures outcome.Fetched? <==> 200 <= response.status < 300
    ensures outcome.Fetched? ==> outcome.blocks == response.body.questions
  {
    if 200 <= response.status < 300 then Page.Fetched(response.body.questions) else Page.FetchFailed
  }

  /** A block from the route holds "Q: " at most at index 0, so the card made
      from it has no "Q: " left in its question. */
  lemma CardQuestionHasNoMarker(block: string)
    requires forall j :: 0 < j ==> !OccursAt(block, Route.QuestionMarker, j)
    ensures !Contains(Page.ParseBlock(block).question, Page.QuestionPrefix)
  {
    var marker := Page.QuestionPrefix;
    var part := Page.QuestionPart(block);
    OccursInPrefixEverywhere(block, marker, |part|);
    assert forall j :: 0 < j ==> !OccursAt(part, marker, j);
    var removed := ReplaceFirst(part, marker, "");
    if OccursAt(part, marker, 0) {
      assert IsFirstOccurrence(part, marker, 0);
      assert removed == part[3..];
      OccursInSuffixEverywhere(part, marker, 3);
    } else {
      assert !Contains(part, marker);
    }
    assert forall j :: 0 <= j ==> !OccursAt(removed, marker, j);
    forall j | 0 <= j <= |Trim(removed)| ensures !OccursAt(Trim(removed), marker, j) {
      if OccursAt(Trim(removed), marker, j) {
        TrimOccurrence(removed, marker, j);
      }
    }
  }

  /** When the route gets text from the model, the page receives exactly the
      route's blocks and shows one card per block, at most one more than the
      markers in the text, and no card's question still holds "Q: ". */
  lemma BlocksBecomeCards(subject: string, includeCode: bool, apiKey: Option<string>,
                          generate: string -> Route.ModelReply)
    requires !IsBlank(subject) && Route.KeyConfigured(apiKey)
    requires generate(Route.Prompt(subject, includeCode)).Generated?
    ensures var text := generate(Route.Prompt(subject, includeCode)).text;
            var body := GenerateRequestBody(Some(subject), includeCode);
            FetchOutcomeOf(Route.Post(Route.Parsed(body), apiKey, generate)) == Page.Fetched(Route.SplitBlocks(text))
    ensures var text := generate(Route.Prompt(subject, includeCode)).text;
            var cards := Page.ProcessQuestions(Route.SplitBlocks(text));
            && |cards| == |Route.SplitBlocks(text)| <= Count(text, Route.QuestionMarker) + 1
            && forall k :: 0 <= k < |cards| ==> !Contains(cards[k].question, Page.QuestionPrefix)
  {
    var text := generate(Route.Prompt(subject, includeCode)).text;
    var blocks := Route.SplitBlocks(text);
    Route.BlockCount(text);
    forall k | 0 <= k < |blocks| ensures !Contains(Page.ParseBlock(blocks[k]).question, Page.QuestionPrefix) {
      CardQuestionHasNoMarker(blocks[k]);
    }
  }

  /** The page posting to the route: a blank subject stops at the page; any
      response that is not a success keeps the old cards and shows the failure
      message; a success shows one card per block of the model's text. */
  method SubmitToRoute(page: Page.InterviewPage, apiKey: Option<string>, generate: string -> Route.ModelReply)
    requires page.Valid()
    modifies page
    ensures page.Valid()
    ensures page.subject == old(page.subject) && page.includeCode == old(page.includeCode)
    ensures IsBlank(page.subject) ==>
              page.error == Page.EmptySubjectMessage && page.questions == old(page.questions) && page.loading == old(page.loading)
    ensures !IsBlank(page.subject) ==> !page.loading
    ensures !IsBlank(page.subject) && !Route.KeyConfigured(apiKey) ==>
              page.error == Page.FailureMessage && page.questions == old(page.questions)
    ensures var reply := generate(Route.Prompt(page.subject, page.includeCode));
            !IsBlank(page.subject) && Route.KeyConfigured(apiKey) && reply.Generated? ==>
              page.questions == Page.ProcessQuestions(Route.SplitBlocks(reply.text)) && page.error == ""
    ensures var reply := generate(Route.Prompt(page.subject, page.includeCode));
            !IsBlank(page.subject) && Route.KeyConfigured(apiKey) && reply.Threw? ==>
              page.error == Page.FailureMessage && page.questions == old(page.questions)
  {
    var request := page.BeginRequest();
    if request.Some? {
      var response := Route.Post(Route.Parsed(request.value), apiKey, generate);
      page.FinishRequest(FetchOutcomeOf(response));
    }
  }
}
