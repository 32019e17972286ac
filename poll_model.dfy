/** What the message client decides, stated on values. The transport and the
    JSON library are outside the model: an HTTP exchange is a request value
    and a response value holding the status code and the already-decoded
    body, and a decoded body is either a decoding failure or an array of
    message records. */
module PollModel {
  import opened Platform

  /** `POLL_INTERVAL`: at most one poll per 10 seconds. */
  const POLL_INTERVAL: u32 := 10000

  /** The fields the client reads from one message object: `id`, `content`,
      `author.id` and `author.bot`. */
  datatype MessageRecord = MessageRecord(id: string, content: string, authorId: string, bot: bool)

  /** A response body after `deserializeJson`. */
  datatype Document = Malformed | JsonArray(records: seq<MessageRecord>)

  /** A request to the messages endpoint: a GET, or a POST whose JSON body is
      the object `{"content": content}`. */
  datatype HttpRequest = Get(url: string) | Post(url: string, content: string)

  datatype HttpResponse = HttpResponse(code: int, body: Document)

  /** Why a poll forwards nothing, in the order the client tells the cases apart. */
  datatype DropReason = HttpError(code: int) | ParseFailed | NoMessages | AlreadyProcessed | FromBot | EmptyId

  /** What a poll does: hand one message's content to the command executor, or drop it. */
  datatype Decision = Forward(id: string, content: string) | Drop(reason: DropReason)

  /** The message-creation endpoint of the configured channel. */
  function MessagesUrl(apiUrl: string, channelId: string): (url: string)
    ensures |url| == |apiUrl| + |channelId| + 9
    ensures url[..|apiUrl|] == apiUrl
    ensures url[|apiUrl|..|apiUrl| + |channelId|] == channelId
    ensures url[|url| - 9..] == "/messages"
  {
    apiUrl + channelId + "/messages"
  }

  /** The same endpoint asked for the most recent message only. */
  function PollUrl(apiUrl: string, channelId: string): (url: string)
    ensures |url| == |apiUrl| + |channelId| + 17
    ensures url[..|apiUrl|] == apiUrl
    ensures url[|url| - 8..] == "?limit=1"
  {
    MessagesUrl(apiUrl, channelId) + "?limit=1"
  }

  /** The rate gate of `update`: the wrapping difference between the clock and
      the last poll has reached the interval. */
  predicate PollDue(now: u32, lastPollTime: u32): (due: bool)
    ensures due ==> now != lastPollTime
    ensures lastPollTime <= now ==> (due <==> now - lastPollTime >= POLL_INTERVAL as int)
    ensures now < lastPollTime ==> (due <==> now as int + U32_MODULUS - lastPollTime >= POLL_INTERVAL as int)
  {
    Elapsed(now, lastPollTime) >= POLL_INTERVAL
  }

  /** `parseMessage` followed by the checks in `pollMessages`, with `lastId` the
      id forwarded last. */
  function Decide(lastId: string, response: HttpResponse): (d: Decision)
    ensures d == Drop(HttpError(response.code)) <==> response.code != 200
    ensures d == Drop(ParseFailed) <==> response.code == 200 && response.body.Malformed?
    ensures d.Forward? ==> d.id != lastId && |d.id| > 0
    ensures d.Forward? ==> exists k :: 0 <= k < |response.body.records| && response.body.records[k].id == d.id
  {
    if response.code != 200 then Drop(HttpError(response.code))
    else match response.body
      case Malformed => Drop(ParseFailed)
      case JsonArray(records) =>
        if |records| == 0 then Drop(NoMessages)
        else
          var m := records[0];
          if m.id != lastId && |m.id| > 0 && !m.bot then Forward(m.id, m.content)
          else if m.id == lastId then Drop(AlreadyProcessed)
          else if m.bot then Drop(FromBot)
          else Drop(EmptyId)
  }

  /** The id remembered after a decision: the forwarded id, or the old one. */
  function Remembered(lastId: string, d: Decision): (id: string)
    ensures id == lastId || d.Forward?
    ensures d.Forward? ==> id == d.id
  {
    if d.Forward? then d.id else lastId
  }

  /** A poll forwards exactly when the status is 200, the body decodes to a
      non-empty array, and its first message has a new, non-empty id and a
      human author; what it forwards is that message's content, and only the
      first element is ever looked at. */
  lemma ForwardIff(lastId: string, response: HttpResponse)
    ensures Decide(lastId, response).Forward? <==>
      && response.code == 200
      && response.body.JsonArray? && |response.body.records| > 0
      && response.body.records[0].id != lastId
      && |response.body.records[0].id| > 0
      && !response.body.records[0].bot
    ensures Decide(lastId, response).Forward? ==>
      Decide(lastId, response) == Forward(response.body.records[0].id, response.body.records[0].content)
  {
  }

  /** Dropping leaves the remembered id alone; forwarding replaces it. */
  lemma RememberedOnlyOnForward(lastId: string, response: HttpResponse)
    ensures var d := Decide(lastId, response);
      Remembered(lastId, d) == (if d.Forward? then response.body.records[0].id else lastId)
    ensures |lastId| > 0 ==> |Remembered(lastId, Decide(lastId, response))| > 0
  {
  }

  /** Two consecutive polls whose latest message has the same id forward it at
      most once, whatever else differs between the two responses. */
  lemma ConsecutiveDuplicateForwardedOnce(lastId: string, r1: HttpResponse, r2: HttpResponse)
    requires r1.body.JsonArray? && |r1.body.records| > 0
    requires r2.body.JsonArray? && |r2.body.records| > 0
    requires r1.body.records[0].id == r2.body.records[0].id
    ensures var d1 := Decide(lastId, r1);
      !(d1.Forward? && Decide(Remembered(lastId, d1), r2).Forward?)
  {
  }

  /** The remembered id after a run of polls, one response per poll. */
  function RememberedAfter(lastId: string, responses: seq<HttpResponse>): string
    decreases |responses|
  {
    if responses == [] then lastId
    else RememberedAfter(Remembered(lastId, Decide(lastId, responses[0])), responses[1..])
  }

  /** Polls that forward nothing (an HTTP error, a body that does not decode, an
      empty array, a bot message, a repeated or empty id) leave the remembered
      id as it was. */
  lemma {:induction false} DropsKeepRemembered(lastId: string, responses: seq<HttpResponse>)
    requires forall k :: 0 <= k < |responses| ==> Decide(lastId, responses[k]).Drop?
    ensures RememberedAfter(lastId, responses) == lastId
    decreases |responses|
  {
    if responses != [] {
      assert Decide(lastId, responses[0]).Drop?;
      forall k | 0 <= k < |responses[1..]|
        ensures Decide(lastId, responses[1..][k]).Drop?
      {
        assert responses[1..][k] == responses[k + 1];
      }
      DropsKeepRemembered(lastId, responses[1..]);
    }
  }

  /** A forwarded message is not forwarded again by a later poll whose latest
      message has the same id, however many polls that forward nothing came in
      between. */
  lemma ForwardedOnceAcrossDrops(lastId: string, first: HttpResponse, between: seq<HttpResponse>, again: HttpResponse)
    requires Decide(lastId, first).Forward?
    requires forall k :: 0 <= k < |between| ==>
      Decide(Remembered(lastId, Decide(lastId, first)), between[k]).Drop?
    requires again.body.JsonArray? && |again.body.records| > 0
    requires again.body.records[0].id == first.body.records[0].id
    ensures !Decide(RememberedAfter(lastId, [first] + between), again).Forward?
  {
    var m := Remembered(lastId, Decide(lastId, first));
    assert ([first] + between)[0] == first && ([first] + between)[1..] == between;
    DropsKeepRemembered(m, between);
  }

  /** The author's id plays no part in the decision. */
  lemma AuthorIdIgnored(lastId: string, code: int, m: MessageRecord, rest: seq<MessageRecord>, otherAuthor: string)
    ensures Decide(lastId, HttpResponse(code, JsonArray([m] + rest)))
         == Decide(lastId, HttpResponse(code, JsonArray([m.(authorId := otherAuthor)] + rest)))
  {
  }

  /** Only the single last forwarded id is remembered: if the latest message
      goes from `a` to `b` and back to `a`, `a` is forwarded a second time. */
  lemma SingleSlotMemory(lastId: string, a: MessageRecord, b: MessageRecord)
    requires a.id != lastId && a.id != b.id && |a.id| > 0 && |b.id| > 0 && !a.bot && !b.bot
    ensures var d1 := Decide(lastId, HttpResponse(200, JsonArray([a])));
      var d2 := Decide(Remembered(lastId, d1), HttpResponse(200, JsonArray([b])));
      var d3 := Decide(Remembered(Remembered(lastId, d1), d2), HttpResponse(200, JsonArray([a])));
      d1 == Forward(a.id, a.content) && d2 == Forward(b.id, b.content) && d3 == Forward(a.id, a.content)
  {
  }

  /** Less than the interval after a poll, no poll is due; from the interval on
      it is, also across a wrap of the millisecond counter. */
  lemma PollSpacing(last: u32, d: u32)
    ensures PollDue((last + d) % U32_MODULUS, last) <==> d >= POLL_INTERVAL
  {
    ElapsedAfter(last, d);
  }

  /** The client starts with `lastPollTime` 0, so the first poll waits until
      the clock reads 10 seconds. */
  lemma FirstPoll(now: u32)
    ensures PollDue(now, 0) <==> now >= POLL_INTERVAL
  {
  }

  /** The poll URL is the send URL with the query appended. */
  lemma PollUrlExtendsSendUrl(apiUrl: string, channelId: string)
    ensures var send := MessagesUrl(apiUrl, channelId);
      var poll := PollUrl(apiUrl, channelId);
      |poll| == |send| + 8 && poll[..|send|] == send && poll[|send|..] == "?limit=1"
  {
  }
}
