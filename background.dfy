/** The background worker of `src/background/index.ts`: a message listener that
    accepts only `SCHEDULE_EMAIL`, and the schedule pipeline that obtains a token,
    builds the raw message (the same builder and base64url chain as `GmailApi`),
    creates a draft and only then asks the API to send it. The token service and
    the HTTP API are oracles passed in as values; the model records every request
    the pipeline issues, in order. */
module Background {
  import opened Wrappers
  import opened GmailApi

  /** What a rejected promise carries. */
  datatype Thrown =
    | ErrorObject(name: string, message: string)   // an `Error` (or `TypeError`, ...)
    | RejectedString(text: string)                  // `reject('No token')`
    | PlainObject                                   // `reject(chrome.runtime.lastError)`

  /** `error.toString()`, as the listener sends it back. */
  function ErrorText(e: Thrown): (r: string)
    ensures e.ErrorObject? && e.name == "Error" && e.message != "" ==> r == "Error: " + e.message
  {
    match e
    case ErrorObject(name, message) =>
      if name == "" then message else if message == "" then name else name + ": " + message
    case RejectedString(text) => text
    case PlainObject => "[object Object]"
  }

  /** The requests the pipeline sends to the mail API. */
  datatype Request =
    | CreateDraft(token: string, raw: string)
    | SendDraft(token: string, draftId: string, sendAt: int)

  /** An HTTP response: `ok`, the body as text, and the `id` field of the parsed body. */
  datatype HttpResponse = HttpResponse(ok: bool, text: string, id: string)

  /** `scheduleEmailViaGmailApi`: sequential awaits, each of which may throw. A
      failed draft creation throws before any send is requested; a successful
      one is always followed by the send request; a failed send throws;
      otherwise the parsed send response is the result. */
  method ScheduleEmailViaGmailApi(
    token: Result<string, Thrown>,
    email: EmailData, scheduledTime: int,
    fetch: Request -> Result<HttpResponse, Thrown>)
    returns (outcome: Result<HttpResponse, Thrown>, trace: seq<Request>)
    ensures token.Err? ==> outcome == Err(token.error) && trace == []
    ensures token.Ok? ==> |trace| >= 1 && trace[0] == CreateDraft(token.value, RawMessage(email))
    ensures |trace| <= 2
    ensures |trace| == 1 ==>
      var created := fetch(trace[0]);
      outcome == if created.Err? then Err(created.error)
                 else Err(ErrorObject("Error", "Failed to create draft: " + created.value.text))
    ensures |trace| == 2 ==>
      var created := fetch(trace[0]);
      && created.Ok? && created.value.ok
      && trace[1] == SendDraft(token.value, created.value.id, scheduledTime)
      && var sent := fetch(trace[1]);
         outcome == if sent.Err? then Err(sent.error)
                    else if !sent.value.ok then Err(ErrorObject("Error", "Failed to schedule email: " + sent.value.text))
                    else Ok(sent.value)
    ensures outcome.Ok? ==> |trace| == 2
    ensures (token.Ok? && fetch(CreateDraft(token.value, RawMessage(email))).Ok?
             && fetch(CreateDraft(token.value, RawMessage(email))).value.ok) ==> |trace| == 2
  {
    trace := [];
    if token.Err? {
      return Err(token.error), trace;
    }
    var raw := RawMessage(email);
    var create := CreateDraft(token.value, raw);
    trace := trace + [create];
    var draftRes := fetch(create);
    if draftRes.Err? {
      return Err(draftRes.error), trace;
    }
    if !draftRes.value.ok {
      return Err(ErrorObject("Error", "Failed to create draft: " + draftRes.value.text)), trace;
    }
    var send := SendDraft(token.value, draftRes.value.id, scheduledTime);
    trace := trace + [send];
    var sendRes := fetch(send);
    if sendRes.Err? {
      return Err(sendRes.error), trace;
    }
    if !sendRes.value.ok {
      return Err(ErrorObject("Error", "Failed to schedule email: " + sendRes.value.text)), trace;
    }
    outcome := Ok(sendRes.value);
  }

  /** A runtime message; only its `type` decides whether it is handled. */
  datatype Message = Message(kind: string, emailData: EmailData, scheduledTime: int)

  const ScheduleEmailType: string := "SCHEDULE_EMAIL"

  /** The object passed to `sendResponse`: `{success: true, result}` or
      `{success: false, error}`. */
  datatype Reply = Reply(success: bool, result: Option<HttpResponse>, error: Option<string>)

  function ReplyFor(outcome: Result<HttpResponse, Thrown>): (r: Reply)
    ensures r.success <==> outcome.Ok?
    ensures r.success ==> r.result == Some(outcome.value) && r.error.None?
    ensures !r.success ==> r.result.None? && r.error == Some(ErrorText(outcome.error))
  {
    match outcome
    case Ok(v) => Reply(true, Some(v), None)
    case Err(e) => Reply(false, None, Some(ErrorText(e)))
  }

  /** The `onMessage` listener. It returns `true` (the reply comes later) for a
      `SCHEDULE_EMAIL` message and then replies exactly once; any other message
      gets `undefined`, no reply and no request. */
  method OnMessage(
    msg: Message,
    token: Result<string, Thrown>,
    fetch: Request -> Result<HttpResponse, Thrown>)
    returns (returned: Option<bool>, reply: Option<Reply>, trace: seq<Request>)
    ensures msg.kind != ScheduleEmailType ==> returned.None? && reply.None? && trace == []
    ensures msg.kind == ScheduleEmailType ==>
      && returned == Some(true) && reply.Some?
      && (reply.value.success <==> |trace| == 2 && fetch(trace[1]).Ok? && fetch(trace[1]).value.ok)
      && (token.Ok? ==> |trace| >= 1 && trace[0] == CreateDraft(token.value, RawMessage(msg.emailData)))
      && ((token.Ok? && fetch(CreateDraft(token.value, RawMessage(msg.emailData))).Ok?
           && fetch(CreateDraft(token.value, RawMessage(msg.emailData))).value.ok) ==>
            |trace| == 2 && trace[1] == SendDraft(token.value, fetch(trace[0]).value.id, msg.scheduledTime))
      && (token.Err? ==> trace == [] && reply.value.error == Some(ErrorText(token.error)))
  {
    if msg.kind != ScheduleEmailType {
      return None, None, [];
    }
    var outcome;
    outcome, trace := ScheduleEmailViaGmailApi(token, msg.emailData, msg.scheduledTime, fetch);
    reply := Some(ReplyFor(outcome));
    returned := Some(true);
  }
}
