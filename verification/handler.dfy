/**
  The message handler `on_message`: admission check, link search, one
  request to the parsing service, then dispatch of its reply. The request
  is a parameter `api` from the link to the service's answer.
 */
module Handler {
  import opened Optional
  import opened PyValue
  import opened Gating
  import opened LinkScan
  import opened Responses

  /** The parts of an incoming chat event the handler reads. */
  datatype Event = Event(groupId: Value, text: string)

  /**
    The result of the request: the decoded JSON reply, or the failure that
    was raised while fetching or decoding it, already rendered with `str`.
   */
  datatype ApiReply = Replied(data: Response) | RequestFailed(error: string)

  /** The outputs for the request's outcome. */
  function ReplyOutputs(reply: ApiReply): (out: seq<Output>)
    ensures reply.RequestFailed? ==> out == [Plain(FailurePrefix + reply.error)]
    ensures reply.Replied? ==> ReadBack(out) == Some(Decide(reply.data))
  {
    match reply
    case RequestFailed(e) => [Plain(FailurePrefix + e)]
    case Replied(data) =>
      DispatchReadsBack(data);
      Dispatch(data)
  }

  /** Everything the handler yields for one chat event, in order. */
  function OnMessage(cfg: Config, ev: Event, api: string -> ApiReply): (out: seq<Output>)
    ensures !Admits(cfg, ev.groupId) ==> out == []
    ensures Admits(cfg, ev.groupId) && NoLink(ev.text) ==> out == []
    ensures Admits(cfg, ev.groupId) && !NoLink(ev.text) ==>
      exists i: nat, j: nat :: LeftmostLongest(ev.text, i, j) && out == ReplyOutputs(api(ev.text[i..j]))
  {
    if !Admits(cfg, ev.groupId) then []
    else
      match FindLink(ev.text)
      case None => []
      case Some(url) => ReplyOutputs(api(url))
  }

  /** The handler stays silent exactly when the event is not admitted or carries no share link. */
  lemma SilentIff(cfg: Config, ev: Event, api: string -> ApiReply)
    ensures OnMessage(cfg, ev, api) == [] <==> !Admits(cfg, ev.groupId) || NoLink(ev.text)
  {
    if Admits(cfg, ev.groupId) && !NoLink(ev.text) {
      var url := FindLink(ev.text).value;
      match api(url)
      case RequestFailed(e) =>
      case Replied(data) => DispatchShape(data);
    }
  }

  /**
    The service is asked about the found link and nothing else: two services
    that agree on that link make the handler produce the same outputs.
   */
  lemma OnlyTheLinkIsQueried(cfg: Config, ev: Event, api: string -> ApiReply, api': string -> ApiReply)
    requires FindLink(ev.text).Some? ==> api(FindLink(ev.text).value) == api'(FindLink(ev.text).value)
    ensures OnMessage(cfg, ev, api) == OnMessage(cfg, ev, api')
  {
  }
}
