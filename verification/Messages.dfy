/**
 * The messages that travel between HTTP caller, server and device, and the three places that read them:
 * CHTTPRequestHandler (format check and forwarding), CRPCClient (the device's worker) and
 * CRegMsgHandler (which finds the request id of a reply).
 */
module Messages {
  import opened Common

  datatype Param = Object(uuid: Option<string>, body: string) | NotAnObject

  /** A JSON object; a missing key is None. */
  datatype Message = Message(kind: Option<string>, action: Option<string>, param: Option<Param>,
                             requestId: Option<int>, result: Option<string>, detail: Option<string>)

  const REQUEST := "request"
  const RESPONSE := "response"

  // ---------- component.method ----------

  function DotPosition(action: string): nat {
    IndexWhere(action, (c: char) => c == '.')
  }

  /** parseAction: the parts before and after the first dot. */
  function ParseAction(action: string): Option<(string, string)> {
    var dot := DotPosition(action);
    if dot == |action| then None else Some((action[..dot], action[dot + 1..]))
  }

  /** parseAction succeeds exactly on the joins component.method with no dot in the component. */
  lemma ParseActionInvertsJoin(action: string, component: string, operation: string)
    ensures ParseAction(action) == Some((component, operation))
            <==> action == component + "." + operation && '.' !in component
    ensures ParseAction(action).None? <==> '.' !in action
  {
    var dot := DotPosition(action);
    if action == component + "." + operation && '.' !in component {
      assert action[|component|] == '.';
      assert forall i :: 0 <= i < |component| ==> action[i] == component[i];
      assert dot == |component|;
      assert action[..dot] == component && action[dot + 1..] == operation;
    }
    if ParseAction(action) == Some((component, operation)) {
      forall j | 0 <= j < |component| ensures component[j] != '.' {
        assert component[j] == action[j];
      }
      assert action == action[..dot] + "." + action[dot + 1..] == component + "." + operation;
    }
  }

  // ---------- the HTTP side ----------

  /** checkRequestFormat: the detail code of the failure, or None. */
  function FormatError(m: Message): Option<string> {
    if m.kind.None? || m.action.None? || m.param.None? then Some("101")
    else if m.kind.value != REQUEST then Some("102")
    else if m.param.value.NotAnObject? then Some("103")
    else if m.param.value.uuid.None? then Some("104")
    else None
  }

  /** Is the request passed on to a device rather than answered by the server itself? */
  predicate Forwarded(m: Message) {
    && FormatError(m).None?
    && ParseAction(m.action.value).Some?
    && ParseAction(m.action.value).value.0 !in {"server", "update"}
  }

  /** sendRequest's reply when there is no connection to the device. */
  function NotFound(request: Message): Message {
    request.(kind := Some(RESPONSE), result := Some("failed"), detail := Some("404"))
  }

  function WithId(request: Message, id: int): Message {
    request.(requestId := Some(id))
  }

  // ---------- the device's worker ----------

  /** What a component method answers: success with its parameters, or a detail code. */
  datatype Outcome = Good(param: Param) | Bad(detail: string)

  function WorkerResult(action: string, requestId: int, outcome: Outcome): Message {
    match outcome
    case Good(param) => Message(Some(RESPONSE), Some(action), Some(param), Some(requestId), Some("good"), None)
    case Bad(detail) => Message(Some(RESPONSE), Some(action), None, Some(requestId), Some("failed"), Some(detail))
  }

  /** runTask: None is no answer at all; `outcome` is what the dispatched component would answer. */
  function WorkerReply(request: Option<Message>, outcome: Outcome): Option<Message> {
    if request.None? then None
    else
      var m := request.value;
      if m.kind == Some(RESPONSE) then None
      else if m.kind.None? || m.action.None? || m.param.None? || m.requestId.None?
      then Some(WorkerResult("", 0, Bad("101")))
      else if ParseAction(m.action.value).None? then Some(WorkerResult(m.action.value, m.requestId.value, Bad("105")))
      else if m.param.value.NotAnObject? then Some(WorkerResult(m.action.value, m.requestId.value, Bad("103")))
      else Some(WorkerResult(m.action.value, m.requestId.value, outcome))
  }

  // ---------- the server's reader ----------

  /** The request id handleRegMsg takes from a device message: 0 for a request, 1 for a response without id. */
  function ReplyId(m: Message): int {
    if m.kind == Some(RESPONSE) then
      if m.requestId.Some? then m.requestId.value else 1
    else 0
  }

  /** Only a response carries a request id; one without is told apart by 1, and everything else is 0. */
  lemma OnlyResponsesCarryIds(m: Message)
    ensures m.kind != Some("response") ==> ReplyId(m) == 0
    ensures m.kind == Some("response") && m.requestId.None? ==> ReplyId(m) == 1
    ensures m.kind == Some("response") && m.requestId.Some? ==> ReplyId(m) == m.requestId.value
  {
  }

  predicate AnswersTo(reply: Message, request: Message, outcome: Outcome) {
    WorkerReply(Some(request), outcome) == Some(reply)
  }

  /** Exactly requests with a device's uuid are forwarded whose component is neither of the server's own. */
  lemma ForwardedExactly(m: Message)
    ensures Forwarded(m) <==>
            && m.kind == Some("request")
            && m.param.Some? && m.param.value.Object? && m.param.value.uuid.Some?
            && exists component: string, operation: string ::
                 && m.action == Some(component + "." + operation) && '.' !in component
                 && component != "server" && component != "update"
  {
    if m.action.Some? {
      var action := m.action.value;
      forall component: string, operation: string | '.' !in component && action == component + "." + operation
        ensures ParseAction(action) == Some((component, operation))
      {
        ParseActionInvertsJoin(action, component, operation);
      }
      if ParseAction(action).Some? {
        ParseActionInvertsJoin(action, ParseAction(action).value.0, ParseAction(action).value.1);
      }
    }
  }

  /** What the HTTP side refuses, and with which code. */
  lemma FormatErrorCodes(m: Message)
    ensures FormatError(m) == Some("101") <==> m.kind.None? || m.action.None? || m.param.None?
    ensures FormatError(m) == Some("102") <==> FormatError(m) != Some("101") && m.kind != Some("request")
    ensures FormatError(m) == Some("103") <==>
            m.kind == Some("request") && m.action.Some? && m.param == Some(NotAnObject)
    ensures FormatError(m) == Some("104") <==>
            && m.kind == Some("request") && m.action.Some?
            && m.param.Some? && m.param.value.Object? && m.param.value.uuid.None?
    ensures FormatError(m).None? || FormatError(m).value in {"101", "102", "103", "104"}
  {
  }

  /** A forwarded request, stamped with an id, is answered by the worker with that same id and its own outcome. */
  lemma ForwardedRequestIsAnswered(request: Message, id: int, outcome: Outcome)
    requires Forwarded(request)
    ensures var reply := WorkerReply(Some(WithId(request, id)), outcome);
            && reply.Some? && ReplyId(reply.value) == id
            && reply.value.kind == Some("response") && reply.value.action == request.action
            && reply.value.requestId == Some(id)
            && (reply.value.result == Some("good") <==> outcome.Good?)
            && (reply.value.result == Some("failed") <==> outcome.Bad?)
            && (outcome.Good? ==> reply.value.param == Some(outcome.param) && reply.value.detail.None?)
            && (outcome.Bad? ==> reply.value.detail == Some(outcome.detail) && reply.value.param.None?)
  {
  }

  /** What a worker says to a message that no HTTP caller could have had forwarded. */
  lemma WorkerRefuses(m: Message, outcome: Outcome)
    ensures WorkerReply(None, outcome).None?
    ensures WorkerReply(Some(m), outcome).None? <==> m.kind == Some("response")
    ensures m.kind != Some("response") && (m.kind.None? || m.action.None? || m.param.None? || m.requestId.None?) ==>
              WorkerReply(Some(m), outcome)
              == Some(Message(Some("response"), Some(""), None, Some(0), Some("failed"), Some("101")))
    ensures m.kind.Some? && m.kind.value != "response" && m.action.Some? && m.param.Some? && m.requestId.Some? ==>
              && ('.' !in m.action.value ==>
                    WorkerReply(Some(m), outcome)
                    == Some(Message(Some("response"), m.action, None, m.requestId, Some("failed"), Some("105"))))
              && ('.' in m.action.value && m.param == Some(NotAnObject) ==>
                    WorkerReply(Some(m), outcome)
                    == Some(Message(Some("response"), m.action, None, m.requestId, Some("failed"), Some("103"))))
  {
    if m.action.Some? {
      ParseActionInvertsJoin(m.action.value, "", "");
    }
  }

  /** Whatever a worker answers carries the id of the message it was given, or 0. */
  lemma WorkerEchoesId(request: Message, outcome: Outcome, reply: Message)
    requires AnswersTo(reply, request, outcome)
    ensures request.requestId == Some(ReplyId(reply)) || ReplyId(reply) == 0
  {
  }
}
