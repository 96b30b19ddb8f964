/**
 * The request `openai_ask` (ar/views.py) hands to the chat-completion
 * client. Sending it and reading the reply are left to the caller, which
 * supplies the reply as an oracle.
 */
module LlmRequest {
  import opened Wrappers
  import opened PyStrings

  /** One element of a multi-part message content. */
  datatype Part = TextPart(text: string) | ImageUrlPart(url: string)

  /** A message content: either a bare string or a list of parts. */
  datatype Content = Plain(text: string) | Parts(parts: seq<Part>)

  datatype Message = Message(role: string, content: Content)

  datatype ChatRequest = ChatRequest(model: string, messages: seq<Message>)

  const VisionModel: string := "gpt-4o"
  const TextModel: string := "gpt-3.5-turbo"

  /** The first text part of a part list. */
  function FirstText(parts: seq<Part>): (r: Option<string>)
    ensures r.Some? <==> exists i :: 0 <= i < |parts| && parts[i].TextPart?
    ensures r.Some? ==> exists i :: 0 <= i < |parts| && parts[i] == TextPart(r.value)
                                   && forall j :: 0 <= j < i ==> !parts[j].TextPart?
  {
    if parts == [] then None
    else if parts[0].TextPart? then Some(parts[0].text)
    else
      var r := FirstText(parts[1..]);
      assert forall i :: 0 < i < |parts| ==> parts[i] == parts[1..][i - 1];
      r
  }

  /** The first image part of a part list. */
  function FirstImage(parts: seq<Part>): Option<string> {
    if parts == [] then None
    else if parts[0].ImageUrlPart? then Some(parts[0].url)
    else FirstImage(parts[1..])
  }

  /** The question a request carries: the text of its first message's content. */
  function QuestionOf(req: ChatRequest): Option<string> {
    if req.messages == [] then None
    else match req.messages[0].content
      case Plain(t) => Some(t)
      case Parts(ps) => FirstText(ps)
  }

  /** The image URL a request carries, if any. */
  function ImageOf(req: ChatRequest): Option<string> {
    if req.messages == [] then None
    else match req.messages[0].content
      case Plain(_) => None
      case Parts(ps) => FirstImage(ps)
  }

  /**
   * `openai_ask(question, url)` up to the network call: a truthy URL asks
   * the vision model with a text part followed by an image part, anything
   * else asks the text model with the bare question. Either way there is a
   * single message, from the user, and the question and image can be read
   * back from it unchanged.
   */
  function BuildRequest(question: string, url: Option<string>): (req: ChatRequest)
    ensures |req.messages| == 1 && req.messages[0].role == "user"
    ensures req.model == (if Truthy(url) then VisionModel else TextModel)
    ensures Truthy(url) ==> req.messages[0].content == Parts([TextPart(question), ImageUrlPart(url.value)])
    ensures !Truthy(url) ==> req.messages[0].content == Plain(question)
    ensures QuestionOf(req) == Some(question)
    ensures ImageOf(req) == (if Truthy(url) then url else None)
  {
    var content := if Truthy(url) then Parts([TextPart(question), ImageUrlPart(url.value)]) else Plain(question);
    var model := if Truthy(url) then VisionModel else TextModel;
    assert content.Parts? ==> FirstImage(content.parts) == FirstImage(content.parts[1..]) == Some(url.value);
    ChatRequest(model, [Message("user", content)])
  }

  /** Requests for different questions differ, whatever the image. */
  lemma BuildRequestInjective(q1: string, u1: Option<string>, q2: string, u2: Option<string>)
    requires BuildRequest(q1, u1) == BuildRequest(q2, u2)
    ensures q1 == q2
    ensures Truthy(u1) <==> Truthy(u2)
    ensures Truthy(u1) ==> u1 == u2
  {
    assert QuestionOf(BuildRequest(q1, u1)) == Some(q1);
    assert ImageOf(BuildRequest(q1, u1)) == (if Truthy(u1) then u1 else None);
  }
}
