/**
 * The request handler `main` (ar/views.py) with its foreign services as
 * parameters: the search result, the chat-completion reply, the OpenCC
 * `s2t` conversion and `md.convert`.
 */
module Views {
  import opened Wrappers
  import opened PyStrings
  import opened Retrieval
  import opened Prompt
  import opened LlmRequest
  import opened MarkdownPatches

  /** What `main` renders: the bare form, or the form with both rendered answers. */
  datatype Page = Form | Answers(mdAnsRag: string, mdAnsNormal: string)

  /** The page, or the exception that escaped, with the chat requests sent, in order. */
  datatype Outcome = Outcome(page: Result<Page, RetrievalError>, sent: seq<ChatRequest>)

  /**
   * `main(request)` for the posted question `userQuestion` and the signed
   * URL `cloudUrl` of the uploaded image (`None` when no image came with
   * the form). A falsy question renders the bare form without any call.
   * Otherwise the retrieval-augmented request carries the composed prompt
   * and the baseline request the raw question, both with the same image;
   * an empty search result raises before any request is sent.
   */
  function HandleRequest<S, V>(userQuestion: Option<string>, cloudUrl: Option<string>, hits: seq<Hit<S, V>>,
                              ask: ChatRequest -> string, s2t: string -> string, convert: string -> string): (o: Outcome)
    ensures o.page == Success(Form) <==> !Truthy(userQuestion)
    ensures o.page.Failure? <==> Truthy(userQuestion) && |hits| == 0
    ensures !o.page.Success? || o.page.value.Form? ==> o.sent == []
    ensures o.page.Success? && o.page.value.Answers? ==>
      var refs := QueryKnowledgeBase(hits).value;
      var model := if Truthy(cloudUrl) then VisionModel else TextModel;
      var image := if Truthy(cloudUrl) then cloudUrl else None;
      && |o.sent| == 2
      && QuestionOf(o.sent[0]) == Some(ComposePrompt(refs.0, refs.1, userQuestion.value))
      && QuestionOf(o.sent[1]) == userQuestion
      && o.sent[0].model == model && o.sent[1].model == model
      && ImageOf(o.sent[0]) == image && ImageOf(o.sent[1]) == image
      && o.page.value.mdAnsRag == RenderAnswer(convert, s2t(ask(o.sent[0])))
      && o.page.value.mdAnsNormal == RenderAnswer(convert, s2t(ask(o.sent[1])))
  {
    if !Truthy(userQuestion) then
      Outcome(Success(Form), [])
    else
      var question := userQuestion.value;
      match QueryKnowledgeBase(hits)
      case Failure(e) => Outcome(Failure(e), [])
      case Success(refs) =>
        var ragRequest := BuildRequest(ComposePrompt(refs.0, refs.1, question), cloudUrl);
        var normalRequest := BuildRequest(question, cloudUrl);
        var ansRag := s2t(ask(ragRequest));
        var ansNormal := s2t(ask(normalRequest));
        Outcome(Success(Answers(RenderAnswer(convert, ansRag), RenderAnswer(convert, ansNormal))),
                [ragRequest, normalRequest])
  }

  /**
   * With an image attached, both calls go to the vision model, and the
   * retrieval-augmented prompt puts the second-ranked hit's text first
   * whenever the search returned two or more hits.
   */
  lemma ImageRequestsUseVisionModel<S, V>(userQuestion: Option<string>, cloudUrl: Option<string>, hits: seq<Hit<S, V>>,
                                         ask: ChatRequest -> string, s2t: string -> string, convert: string -> string)
    requires Truthy(userQuestion) && Truthy(cloudUrl) && |hits| >= 2
    ensures var o := HandleRequest(userQuestion, cloudUrl, hits, ask, s2t, convert);
      && |o.sent| == 2
      && o.sent[0].model == VisionModel && o.sent[1].model == VisionModel
      && QuestionOf(o.sent[0]) == Some(ComposePrompt(ToReference(hits[1]), ToReference(hits[0]), userQuestion.value))
  {
  }
}
