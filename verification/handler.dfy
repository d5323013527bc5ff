/**
 The outcome decision of the `get-files` handler, taken over abstract inputs:
 the configured token, what the one upstream request produced, and a clock.
 The request itself, its URL and headers, body parsing and logging are not
 modelled; the upstream answer arrives already classified.
 */
module Handler {
  import Decimal
  import Media

  /** The upstream body once parsed as JSON. */
  datatype Body =
    | JsonArray(entries: seq<Media.Entry>)   // a directory listing
    | OtherJson                              // valid JSON that is not an array
    | InvalidJson(message: string)           // parsing failed with this message

  /** What the single upstream request produced. */
  datatype Upstream =
    | Unreachable(message: string)           // the request itself failed
    | Answered(status: nat, statusText: string, body: Body)

  /** The handler's view after the upstream checks: the listing, or the message of the error thrown. */
  datatype Listing = Listed(entries: seq<Media.Entry>) | Thrown(message: string)

  datatype Header = Header(name: string, value: string)

  /** The JSON body of the reply. */
  datatype Payload =
    | MediaList(items: seq<Media.MediaItem>)
    | Problem(error: string)
    | ProblemWithDetails(error: string, details: string)

  datatype Reply = Reply(status: nat, headers: seq<Header>, payload: Payload)

  /** One invocation: whether the upstream request was issued, and the reply. */
  datatype Run = Run(requested: bool, reply: Reply)

  const MissingTokenMessage: string :=
    "Token do GitHub n\U{E3}o configurado. Configure GITHUB_TOKEN nas vari\U{E1}veis de ambiente."

  const UnexpectedShapeMessage: string := "Resposta inesperada da API do GitHub"

  const DetailsHint: string :=
    "Verifique se o token do GitHub est\U{E1} correto e tem permiss\U{F5}es de leitura no reposit\U{F3}rio"

  /** The headers of a successful reply: ten minutes of shared caching, JSON content. */
  const SuccessHeaders: seq<Header> := [
    Header("Cache-Control", "s-maxage=600, stale-while-revalidate"),
    Header("Content-Type", "application/json")
  ]

  /** The Fetch API's `ok`: a status in the 2xx range. */
  predicate IsOk(status: nat)
    ensures IsOk(status) <==> status / 100 == 2
  {
    200 <= status <= 299
  }

  /** True when `sub` occurs in `s` starting at index `k`. */
  predicate OccursAt(s: string, sub: string, k: int) {
    0 <= k <= |s| - |sub| && s[k..k + |sub|] == sub
  }

  /** True when `sub` occurs in `s`. */
  ghost predicate Contains(s: string, sub: string) {
    exists k :: OccursAt(s, sub, k)
  }

  /** The message thrown for a non-ok upstream status. */
  function StatusMessage(status: nat, statusText: string): (m: string)
    ensures Contains(m, Decimal.Show(status))
    ensures Contains(m, statusText)
  {
    var prefix := "Erro do GitHub (";
    var digits := Decimal.Show(status);
    var m := prefix + digits + "): " + statusText;
    assert OccursAt(m, digits, |prefix|);
    assert OccursAt(m, statusText, |m| - |statusText|);
    m
  }

  /** The upstream checks inside the `try` block: status first, then the shape of the body. */
  function ReadListing(upstream: Upstream): (r: Listing)
    ensures r.Listed? <==> upstream.Answered? && IsOk(upstream.status) && upstream.body.JsonArray?
    ensures r.Listed? ==> r.entries == upstream.body.entries
    ensures upstream.Answered? && !IsOk(upstream.status) ==>
      && r == Thrown(StatusMessage(upstream.status, upstream.statusText))
      && Contains(r.message, Decimal.Show(upstream.status))
      && Contains(r.message, upstream.statusText)
    ensures upstream.Answered? && IsOk(upstream.status) && upstream.body.OtherJson? ==>
      r == Thrown(UnexpectedShapeMessage)
    ensures upstream.Answered? && IsOk(upstream.status) && upstream.body.InvalidJson? ==>
      r == Thrown(upstream.body.message)
    ensures upstream.Unreachable? ==> r == Thrown(upstream.message)
  {
    match upstream
    case Unreachable(message) => Thrown(message)
    case Answered(status, statusText, body) =>
      if !IsOk(status) then Thrown(StatusMessage(status, statusText))
      else
        match body
        case JsonArray(entries) => Listed(entries)
        case OtherJson => Thrown(UnexpectedShapeMessage)
        case InvalidJson(message) => Thrown(message)
  }

  /** The handler: token check, upstream checks, then the media list or an error reply. */
  function Handle(token: string, upstream: Upstream, clock: nat -> string): (run: Run)
    ensures run.requested <==> token != ""
    ensures run.reply.status == 200 || run.reply.status == 500
    ensures run.reply.status == 200 <==>
      token != "" && upstream.Answered? && IsOk(upstream.status) && upstream.body.JsonArray?
    ensures run.reply.status == 200 ==>
      && run.reply.payload == MediaList(Media.ListMedia(upstream.body.entries, clock))
      && run.reply.headers == SuccessHeaders
    ensures run.reply.status == 500 ==> run.reply.headers == [] && !run.reply.payload.MediaList?
    ensures token == "" ==> run.reply.payload == Problem(MissingTokenMessage)
    ensures token != "" && run.reply.status == 500 ==>
      run.reply.payload == ProblemWithDetails(ReadListing(upstream).message, DetailsHint)
  {
    if token == "" then
      Run(false, Reply(500, [], Problem(MissingTokenMessage)))
    else
      match ReadListing(upstream)
      case Listed(entries) =>
        Run(true, Reply(200, SuccessHeaders, MediaList(Media.ListMedia(entries, clock))))
      case Thrown(message) =>
        Run(true, Reply(500, [], ProblemWithDetails(message, DetailsHint)))
  }

  /** Without a token the reply does not depend on anything upstream: no request is made. */
  lemma MissingTokenIgnoresUpstream(u1: Upstream, u2: Upstream, c1: nat -> string, c2: nat -> string)
    ensures Handle("", u1, c1) == Handle("", u2, c2)
    ensures !Handle("", u1, c1).requested
    ensures Handle("", u1, c1).reply.status == 500
  {
  }

  /** An upstream 404 becomes a 500 whose error message names the 404. */
  lemma NotFoundReported(token: string, statusText: string, body: Body, clock: nat -> string)
    requires token != ""
    ensures var reply := Handle(token, Answered(404, statusText, body), clock).reply;
      && reply.status == 500
      && reply.payload.ProblemWithDetails?
      && Contains(reply.payload.error, "404")
  {
    var digits := Decimal.Show(404);
    assert Decimal.Show(40) == "40";
    assert digits == "404";
  }

  /** Any failed upstream status becomes a 500 whose error names the status digits and text. */
  lemma FailedStatusReported(token: string, status: nat, statusText: string, body: Body, clock: nat -> string)
    requires token != "" && !IsOk(status)
    ensures var reply := Handle(token, Answered(status, statusText, body), clock).reply;
      && reply.status == 500
      && reply.payload == ProblemWithDetails(StatusMessage(status, statusText), DetailsHint)
      && Contains(reply.payload.error, Decimal.Show(status))
      && Contains(reply.payload.error, statusText)
  {
  }

  /** A body that is valid JSON but not an array is an error, whatever the status. */
  lemma NonArrayRejected(token: string, status: nat, statusText: string, body: Body, clock: nat -> string)
    requires !body.JsonArray?
    ensures Handle(token, Answered(status, statusText, body), clock).reply.status == 500
  {
  }

  /** An empty listing is a success with an empty media list, not an error. */
  lemma EmptyListingSucceeds(token: string, status: nat, statusText: string, clock: nat -> string)
    requires token != "" && IsOk(status)
    ensures Handle(token, Answered(status, statusText, JsonArray([])), clock).reply
         == Reply(200, SuccessHeaders, MediaList([]))
  {
  }

  /** The reply depends on the token only through whether it is set. */
  lemma TokenValueIrrelevant(t1: string, t2: string, upstream: Upstream, clock: nat -> string)
    requires t1 != "" && t2 != ""
    ensures Handle(t1, upstream, clock) == Handle(t2, upstream, clock)
  {
  }
}
