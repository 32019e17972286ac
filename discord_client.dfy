/** The message client object: it remembers the id of the last message it
    forwarded and the time of its last poll. The HTTP transport is a
    parameter of each method: `get` and `post` map the request the client
    builds to the response the server gives. The API base URL and the channel
    id come from the build configuration; here they are constructor
    arguments. */
module Discord {
  import opened Platform
  import opened PollModel

  class DiscordClient {
    const apiUrl: string
    const channelId: string
    var lastMessageId: string
    var lastPollTime: u32

    /** The constructor: never polled (time 0), nothing forwarded yet. */
    constructor (apiUrl: string, channelId: string)
      ensures this.apiUrl == apiUrl && this.channelId == channelId
      ensures lastMessageId == "" && lastPollTime == 0
    {
      this.apiUrl := apiUrl;
      this.channelId := channelId;
      lastMessageId := "";
      lastPollTime := 0;
    }

    /** `update` with the clock reading `now`: polls only when the interval has
        passed, then records `finishedAt`, the clock read again once the poll
        is over. Otherwise nothing changes. The result is the poll's decision,
        or `None` when no poll was made. */
    method Update(now: u32, finishedAt: u32, get: HttpRequest -> HttpResponse) returns (polled: Option<Decision>)
      modifies this
      ensures PollDue(now, old(lastPollTime)) ==>
        && polled == Some(Decide(old(lastMessageId), get(Get(PollUrl(apiUrl, channelId)))))
        && lastMessageId == Remembered(old(lastMessageId), polled.value)
        && lastPollTime == finishedAt
      ensures !PollDue(now, old(lastPollTime)) ==>
        polled == None && lastMessageId == old(lastMessageId) && lastPollTime == old(lastPollTime)
    {
      polled := None;
      if Elapsed(now, lastPollTime) >= POLL_INTERVAL {
        var decision := PollMessages(get);
        polled := Some(decision);
        lastPollTime := finishedAt;
      }
    }

    /** `sendMessage`: POSTs `{"content": message}` to the channel's messages
        endpoint and reports success exactly for status 200 or 201; any other
        positive status and every transport failure (a code of 0 or less) is
        a failure. */
    method SendMessage(message: string, post: HttpRequest -> int) returns (success: bool)
      ensures var code := post(Post(MessagesUrl(apiUrl, channelId), message));
        success <==> code == 200 || code == 201
    {
      var url := MessagesUrl(apiUrl, channelId);
      var httpCode := post(Post(url, message));
      success := false;
      if httpCode > 0 {
        if httpCode == 200 || httpCode == 201 {
          success := true;
        }
      }
    }

    /** `pollMessages`: GETs the latest message and forwards its content when it
        is new, has an id and is not from a bot, remembering its id; every other
        outcome leaves `lastMessageId` as it was. */
    method PollMessages(get: HttpRequest -> HttpResponse) returns (decision: Decision)
      modifies this`lastMessageId
      ensures decision == Decide(old(lastMessageId), get(Get(PollUrl(apiUrl, channelId))))
      ensures lastMessageId == Remembered(old(lastMessageId), decision)
    {
      var url := PollUrl(apiUrl, channelId);
      var response := get(Get(url));
      if response.code == 200 {
        var ok, messageId, content, authorId, isBot := ParseMessage(response.body);
        if ok {
          if messageId != lastMessageId && |messageId| > 0 && !isBot {
            decision := Forward(messageId, content);
            lastMessageId := messageId;
          } else if messageId == lastMessageId {
            decision := Drop(AlreadyProcessed);
          } else if isBot {
            decision := Drop(FromBot);
          } else {
            decision := Drop(EmptyId);
          }
        } else {
          decision := Drop(if response.body.Malformed? then ParseFailed else NoMessages);
        }
      } else {
        decision := Drop(HttpError(response.code));
      }
    }

    /** `parseMessage`: fails on a body that does not decode and on an empty
        array; otherwise yields the fields of the first element only. On
        failure the outputs carry no meaning. */
    static method ParseMessage(body: Document)
      returns (ok: bool, messageId: string, content: string, authorId: string, isBot: bool)
      ensures ok <==> body.JsonArray? && |body.records| > 0
      ensures ok ==> && messageId == body.records[0].id
                     && content == body.records[0].content
                     && authorId == body.records[0].authorId
                     && isBot == body.records[0].bot
    {
      ok, messageId, content, authorId, isBot := false, "", "", "", false;
      match body
      case Malformed =>
        return;
      case JsonArray(records) =>
        if |records| == 0 {
          return;
        }
        messageId := records[0].id;
        content := records[0].content;
        authorId := records[0].authorId;
        isBot := records[0].bot;
        ok := true;
    }
  }
}
