/**
 * The LimeSurvey RemoteControl 2 (LSRC2) JSON-RPC client: request
 * envelopes, the class-wide request counter, the checks applied to each
 * reply, the translation of error objects into `LimeSurveyError`, and the
 * repairs applied to the server's non-standard "status" answers.
 */
module LimeSurvey {

  import opened Wrappers
  import opened Python

  /** JSON-RPC 2.0 "internal error", used when an error object is malformed. */
  const InternalError := -32603
  /** JSON-RPC 2.0 implementation-defined server error, used for LSRC2 "status" answers. */
  const ServerError := -32099

  /** One JSON-RPC call as posted: `{"jsonrpc": "2.0", "id": …, "method": …, "params": […]}`. */
  datatype Request = Request(id: nat, name: string, params: seq<Json>)

  function Envelope(r: Request): (j: Json)
    ensures GetKey(j, "jsonrpc") == Ok(Str("2.0"))
    ensures GetKey(j, "id") == Ok(Int(r.id))
    ensures GetKey(j, "method") == Ok(Str(r.name))
    ensures GetKey(j, "params") == Ok(Arr(r.params))
  {
    var members := [("jsonrpc", Str("2.0")), ("id", Int(r.id)), ("method", Str(r.name)), ("params", Arr(r.params))];
    EnvelopeLookups(members);
    Obj(members)
  }

  lemma EnvelopeLookups(members: seq<(string, Json)>)
    requires |members| == 4 && members[0].0 == "jsonrpc" && members[1].0 == "id" && members[2].0 == "method"
    requires members[3].0 == "params"
    ensures Lookup(members, "jsonrpc") == Some(members[0].1)
    ensures Lookup(members, "id") == Some(members[1].1)
    ensures Lookup(members, "method") == Some(members[2].1)
    ensures Lookup(members, "params") == Some(members[3].1)
  {
    assert "jsonrpc" != "id" by { assert |"jsonrpc"| != |"id"|; }
    assert "jsonrpc" != "method" by { assert |"jsonrpc"| != |"method"|; }
    assert "jsonrpc" != "params" by { assert |"jsonrpc"| != |"params"|; }
    assert "id" != "method" by { assert |"id"| != |"method"|; }
    assert "id" != "params" by { assert |"id"| != |"params"|; }
    assert "method" != "params" by { assert "method"[0] != "params"[0]; }
    LookupIndex(members, 0);
    LookupIndex(members, 1);
    LookupIndex(members, 2);
    LookupIndex(members, 3);
  }

  /** What one HTTP POST brings back. */
  datatype Reply =
    | Unreachable      // the POST itself failed
    | NotJson          // the body is not JSON
    | Body(body: Json) // the decoded body

  /**
   * The replies the server is going to give, in order; once they run out,
   * every POST fails as an unreachable server does.
   */
  datatype Replies = NoMore | Then(reply: Reply, later: Replies)

  function Head(replies: Replies): Reply
  {
    match replies
    case NoMore => Unreachable
    case Then(reply, _) => reply
  }

  function Rest(replies: Replies): Replies
  {
    match replies
    case NoMore => NoMore
    case Then(_, later) => later
  }

  /** The replies still to come once `n` of them have been taken. */
  function Skip(replies: Replies, n: nat): Replies
    decreases n
  {
    if n == 0 then replies else Skip(Rest(replies), n - 1)
  }

  lemma {:induction false} RestSkip(replies: Replies, n: nat)
    ensures Rest(Skip(replies, n)) == Skip(replies, n + 1)
    decreases n
  {
    if n > 0 {
      RestSkip(Rest(replies), n - 1);
    }
  }

  lemma {:induction false} SkipSkip(replies: Replies, m: nat, n: nat)
    ensures Skip(Skip(replies, m), n) == Skip(replies, m + n)
    decreases m
  {
    if m > 0 {
      SkipSkip(Rest(replies), m - 1, n);
    }
  }

  /**
   * `LimeSurveySession.__request_id`: shared by every session, each new
   * request takes the next integer, starting from 1.
   */
  class RequestCounter {
    var last: nat

    constructor ()
      ensures last == 0
    {
      last := 0;
    }

    method Next() returns (id: nat)
      modifies this
      ensures last == old(last) + 1 && id == last
    {
      last := last + 1;
      id := last;
    }
  }

  /**
   * The remote end: the requests posted so far, the JSON bodies they were
   * posted as, and the replies still to come.
   */
  class Server {
    var sent: seq<Request>
    var posted: seq<Json>
    var replies: Replies

    constructor (replies: Replies)
      ensures sent == [] && posted == [] && this.replies == replies
    {
      sent := [];
      posted := [];
      this.replies := replies;
    }

    /**
     * `self.session.post(self.url, data=json.dumps(request))`: the request
     * goes out as its envelope, the document `json.dumps` turns into the body.
     */
    method Post(request: Request) returns (reply: Reply)
      modifies this
      ensures sent == old(sent) + [request]
      ensures posted == old(posted) + [Envelope(request)]
      ensures reply == Head(old(replies)) && replies == Rest(old(replies))
    {
      sent := sent + [request];
      posted := posted + [Envelope(request)];
      reply := Head(replies);
      replies := Rest(replies);
    }
  }

  /** Each request posted carries a larger identifier than the one before it. */
  ghost predicate Increasing(sent: seq<Request>)
    decreases |sent|
  {
    |sent| <= 1 || (sent[|sent| - 2].id < sent[|sent| - 1].id && Increasing(sent[..|sent| - 1]))
  }

  /** Posting a request numbered above the last one keeps the identifiers increasing. */
  lemma IncreasingSnoc(sent: seq<Request>, request: Request)
    requires Increasing(sent) && (|sent| > 0 ==> sent[|sent| - 1].id < request.id)
    ensures Increasing(sent + [request])
  {
    assert (sent + [request])[..|sent|] == sent;
  }

  /** Identifiers increase from request to request, start at 1 and none exceeds `last`. */
  ghost predicate Issued(sent: seq<Request>, last: nat)
  {
    Increasing(sent) && (|sent| > 0 ==> 1 <= sent[0].id && sent[|sent| - 1].id <= last)
  }

  /** The requests posted so far were numbered by `counter`. */
  ghost predicate IdsIssued(counter: RequestCounter, server: Server)
    reads counter, server
  {
    Issued(server.sent, counter.last)
  }

  /** `requests` carry the identifiers that follow `last`, one after the other. */
  predicate Numbered(requests: seq<Request>, last: nat)
  {
    forall k :: 0 <= k < |requests| ==> requests[k].id == last + 1 + k
  }

  lemma NumberedAppend(a: seq<Request>, b: seq<Request>, last: nat)
    requires Numbered(a, last) && Numbered(b, last + |a|)
    ensures Numbered(a + b, last)
  {
    forall k | 0 <= k < |a + b|
      ensures (a + b)[k].id == last + 1 + k
    {
      if k >= |a| {
        assert (a + b)[k] == b[k - |a|];
      }
    }
  }

  /** Requests numbered from the counter on keep every identifier issued once, in order. */
  lemma {:induction false} IssuedNumbered(sent: seq<Request>, last: nat, requests: seq<Request>)
    requires Issued(sent, last) && Numbered(requests, last)
    ensures Issued(sent + requests, last + |requests|)
    decreases |requests|
  {
    if |requests| > 0 {
      IncreasingSnoc(sent, requests[0]);
      var next := sent + [requests[0]];
      assert next[0] == if |sent| > 0 then sent[0] else requests[0];
      forall k | 0 <= k < |requests[1..]|
        ensures requests[1..][k].id == last + 1 + 1 + k
      {
        assert requests[1..][k] == requests[k + 1];
      }
      IssuedNumbered(next, last + 1, requests[1..]);
      assert next + requests[1..] == sent + requests;
    } else {
      assert sent + requests == sent;
    }
  }

  /** No two requests posted share an identifier: any earlier one has a smaller identifier. */
  lemma {:induction false} IncreasingIds(sent: seq<Request>, i: nat, j: nat)
    requires Increasing(sent) && i < j < |sent|
    ensures sent[i].id < sent[j].id
    decreases |sent|
  {
    var front := sent[..|sent| - 1];
    if j < |sent| - 1 {
      IncreasingIds(front, i, j);
      assert front[i] == sent[i] && front[j] == sent[j];
    } else if i < j - 1 {
      IncreasingIds(front, i, j - 1);
      assert front[i] == sent[i] && front[j - 1] == sent[j - 1];
    }
  }

  /**
   * The checks `_post` applies to a reply to the request numbered `id`:
   * the reply must carry the same "id", then a "result" and an "error".
   */
  function Answer(reply: Reply, id: nat): (r: Outcome<(Json, Json)>)
    ensures r.Ok? <==> (reply.Body? && reply.body.Obj?
      && GetKey(reply.body, "id").Ok? && PyEq(GetKey(reply.body, "id").value, Int(id))
      && GetKey(reply.body, "result").Ok? && GetKey(reply.body, "error").Ok?)
    ensures r.Ok? ==> r.value == (GetKey(reply.body, "result").value, GetKey(reply.body, "error").value)
    ensures reply == Unreachable ==> r == Raised(ConnectionError)
    ensures reply == NotJson ==> r == Raised(ValueError)
    ensures reply.Body? && GetKey(reply.body, "id").Ok? && !PyEq(GetKey(reply.body, "id").value, Int(id))
      ==> r == Raised(AssertionError)
  {
    match reply
    case Unreachable => Raised(ConnectionError)
    case NotJson => Raised(ValueError)
    case Body(body) =>
      var rid :- GetKey(body, "id");
      if !PyEq(rid, Int(id)) then Raised(AssertionError)
      else
        var result :- GetKey(body, "result");
        var error :- GetKey(body, "error");
        Ok((result, error))
  }

  /**
   * `error2exception`: a falsy error lets the result through; otherwise
   * `LimeSurveyError(message, code)`, with code -32603 when the error
   * object lacks either member.
   */
  function RaiseOnError(response: Json, error: Json): (r: Outcome<Json>)
    ensures r.Ok? <==> !Truthy(error)
    ensures r.Ok? ==> r.value == response
    ensures r.Raised? ==> r.exc.LimeSurveyError?
    ensures r.Raised? && GetKey(error, "code").Ok? && GetKey(error, "message").Ok?
      ==> r.exc == LimeSurveyError(GetKey(error, "message").value, GetKey(error, "code").value)
    ensures r.Raised? && !(error.Obj? && "code" in Keys(error.members) && "message" in Keys(error.members))
      ==> r.exc == LimeSurveyError(Str("Unexpected JSON-RPC error type"), Int(InternalError))
  {
    if !Truthy(error) then Ok(response)
    else
      GetKeyFound(error, "code");
      GetKeyFound(error, "message");
      match (GetKey(error, "code"), GetKey(error, "message"))
      case (Ok(code), Ok(message)) => Raised(LimeSurveyError(message, code))
      case _ => Raised(LimeSurveyError(Str("Unexpected JSON-RPC error type"), Int(InternalError)))
  }

  /** The error object the client builds for an LSRC2 "status" answer. */
  function StatusError(message: Json): Json
  {
    Obj([("code", Int(ServerError)), ("message", message)])
  }

  /** A status error surfaces as `LimeSurveyError(status, -32099)`. */
  lemma StatusErrorRaises(response: Json, message: Json)
    ensures RaiseOnError(response, StatusError(message)) == Raised(LimeSurveyError(message, Int(ServerError)))
  {
    LookupIndex(StatusError(message).members, 1);
  }

  /**
   * The session key `get_session_key` keeps: none when the result carries
   * a "status" or when an error was reported, the result otherwise.
   */
  function SessionKey(response: Json, error: Json): (key: Json)
    ensures GetKey(response, "status").Ok? ==> key == Null
    ensures GetKey(response, "status").Raised? && error != Null ==> key == Null
    ensures GetKey(response, "status").Raised? && error == Null ==> key == response
  {
    match GetKey(response, "status")
    case Ok(_) => Null
    case Raised(_) => if error != Null then Null else response
  }

  /**
   * `list_participants` after its repairs: "No Tokens found" is an empty
   * survey, any other status becomes a -32099 error.
   */
  function ParticipantsResult(responses: Json, error: Json): (r: Outcome<Json>)
    ensures GetKey(responses, "status") == Ok(Str("No Tokens found")) ==> r == Ok(Arr([]))
    ensures GetKey(responses, "status").Ok? && GetKey(responses, "status") != Ok(Str("No Tokens found"))
      ==> r == Raised(LimeSurveyError(GetKey(responses, "status").value, Int(ServerError)))
    ensures GetKey(responses, "status").Raised? ==> r == RaiseOnError(responses, error)
  {
    match GetKey(responses, "status")
    case Raised(_) => RaiseOnError(responses, error)
    case Ok(status) =>
      if PyEq(status, Str("No Tokens found")) then RaiseOnError(Arr([]), Null)
      else StatusErrorRaises(Arr([]), status); RaiseOnError(Arr([]), StatusError(status))
  }

  /**
   * `export_responses` after its repairs. A string result is Base64-encoded
   * JSON, decoded by `decode` (None when decoding fails, which raises a
   * ValueError that nothing catches). Any other result is a status
   * answer: "No Data, could not get max id." is an empty survey, any other
   * status a -32099 error, and no status at all a -32099 error naming the
   * expected Base64 string.
   */
  function ResponsesResult(responses: Json, error: Json, decode: string -> Option<Json>): (r: Outcome<Json>)
    ensures responses.Str? && decode(responses.s).None? ==> r == Raised(ValueError)
    ensures responses.Str? && decode(responses.s).Some? ==> r == RaiseOnError(decode(responses.s).value, error)
    ensures !responses.Str? && GetKey(responses, "status") == Ok(Str("No Data, could not get max id."))
      ==> r == Ok(Obj([("responses", Arr([]))]))
    ensures !responses.Str? && GetKey(responses, "status").Ok?
      && GetKey(responses, "status") != Ok(Str("No Data, could not get max id."))
      ==> r == Raised(LimeSurveyError(GetKey(responses, "status").value, Int(ServerError)))
    ensures !responses.Str? && GetKey(responses, "status").Raised?
      ==> r == Raised(LimeSurveyError(Str(NotBase64), Int(ServerError)))
  {
    var empty := Obj([("responses", Arr([]))]);
    if responses.Str? then
      match decode(responses.s)
      case None => Raised(ValueError)
      case Some(decoded) => RaiseOnError(decoded, error)
    else
      match GetKey(responses, "status")
      case Raised(_) =>
        StatusErrorRaises(empty, Str(NotBase64));
        RaiseOnError(empty, StatusError(Str(NotBase64)))
      case Ok(status) =>
        if PyEq(status, Str("No Data, could not get max id.")) then RaiseOnError(empty, Null)
        else StatusErrorRaises(empty, status); RaiseOnError(empty, StatusError(status))
  }

  /** What `surveys()` returns or raises for a reply to request `id`. */
  function SurveysReply(reply: Reply, id: nat): Outcome<Json>
  {
    var a :- Answer(reply, id);
    RaiseOnError(a.0, a.1)
  }

  /** What `participants(...)` returns or raises for a reply to request `id`. */
  function ParticipantsReply(reply: Reply, id: nat): Outcome<Json>
  {
    var a :- Answer(reply, id);
    ParticipantsResult(a.0, a.1)
  }

  /** What `responses(...)` returns or raises for a reply to request `id`. */
  function ResponsesReply(reply: Reply, id: nat, decode: string -> Option<Json>): Outcome<Json>
  {
    var a :- Answer(reply, id);
    ResponsesResult(a.0, a.1, decode)
  }

  const NotBase64 := "JSON-RPC function \"export_responses\" expected a Base64-encoded string"

  /**
   * `LimeSurveySession`: the server address, the session key obtained at
   * creation, whether the HTTP session is open, and the shared counter and
   * remote end.
   */
  class Session {
    const url: string
    var key: Json
    var httpOpen: bool
    const counter: RequestCounter
    const server: Server

    constructor (url: string, counter: RequestCounter, server: Server)
      ensures this.url == url && this.counter == counter && this.server == server
      ensures key == Null && httpOpen
    {
      this.url := url;
      this.counter := counter;
      this.server := server;
      key := Null;
      httpOpen := true;
    }

    /**
     * `_request` followed by `_post`: numbers the request, posts it and
     * checks the reply.
     */
    method Call(name: string, params: seq<Json>) returns (r: Outcome<(Json, Json)>)
      modifies counter, server
      ensures counter.last == old(counter.last) + 1
      ensures server.sent == old(server.sent) + [Request(counter.last, name, params)]
      ensures server.posted == old(server.posted) + [Envelope(Request(counter.last, name, params))]
      ensures server.replies == Rest(old(server.replies))
      ensures r == Answer(Head(old(server.replies)), counter.last)
    {
      var id := counter.Next();
      var reply := server.Post(Request(id, name, params));
      r := Answer(reply, id);
    }

    /** `LimeSurveySession(url, username, password)`: opens the session and asks for a key. */
    static method Open(url: string, username: string, password: string, counter: RequestCounter, server: Server)
      returns (r: Outcome<Session>)
      modifies counter, server
      ensures counter.last == old(counter.last) + 1
      ensures server.sent == old(server.sent) + [Request(counter.last, "get_session_key", [Str(username), Str(password)])]
      ensures server.replies == Rest(old(server.replies))
      ensures var a := Answer(Head(old(server.replies)), counter.last);
        match a
        case Raised(e) => r == Raised(e)
        case Ok((response, error)) =>
          r.Ok? && fresh(r.value) && r.value.key == SessionKey(response, error) && r.value.httpOpen
          && r.value.url == url && r.value.counter == counter && r.value.server == server
    {
      var s := new Session(url, counter, server);
      var a := s.Call("get_session_key", [Str(username), Str(password)]);
      match a
      case Raised(e) =>
        r := Raised(e);
      case Ok((response, error)) =>
        s.key := SessionKey(response, error);
        r := Ok(s);
    }

    /** `_release_session_key`: the reply's content is ignored, only a failing `_post` matters. */
    method ReleaseSessionKey(key: Json) returns (r: Outcome<()>)
      modifies counter, server
      ensures counter.last == old(counter.last) + 1
      ensures server.sent == old(server.sent) + [Request(counter.last, "release_session_key", [key])]
      ensures server.replies == Rest(old(server.replies))
      ensures r.Ok? <==> Answer(Head(old(server.replies)), counter.last).Ok?
      ensures r.Raised? ==> r.exc == Answer(Head(old(server.replies)), counter.last).exc
    {
      var a := Call("release_session_key", [key]);
      if a.Raised? {
        r := Raised(a.exc);
      } else {
        r := Ok(());
      }
    }

    /**
     * `close()`: releases the key, then forgets it and closes the HTTP
     * session; when the release raises, neither of the last two happens.
     */
    method Close() returns (r: Outcome<()>)
      modifies this, counter, server
      ensures counter.last == old(counter.last) + 1
      ensures server.sent == old(server.sent) + [Request(counter.last, "release_session_key", [old(key)])]
      ensures server.replies == Rest(old(server.replies))
      ensures r.Ok? <==> Answer(Head(old(server.replies)), counter.last).Ok?
      ensures r.Raised? ==> r.exc == Answer(Head(old(server.replies)), counter.last).exc
      ensures r.Ok? ==> key == Null && !httpOpen
      ensures r.Raised? ==> key == old(key) && httpOpen == old(httpOpen)
    {
      r := ReleaseSessionKey(key);
      if r.Ok? {
        key := Null;
        httpOpen := false;
      }
    }

    /** `surveys()`: `list_surveys` with the session key. */
    method Surveys() returns (r: Outcome<Json>)
      modifies counter, server
      ensures counter.last == old(counter.last) + 1
      ensures server.sent == old(server.sent) + [Request(counter.last, "list_surveys", [key])]
      ensures server.replies == Rest(old(server.replies))
      ensures r == SurveysReply(Head(old(server.replies)), counter.last)
    {
      var a := Call("list_surveys", [key]);
      if a.Raised? {
        r := Raised(a.exc);
      } else {
        r := RaiseOnError(a.value.0, a.value.1);
      }
    }

    /** `participants(survey, attributes)`: the first 5000 participants of a survey. */
    method Participants(survey: Json, attributes: Json) returns (r: Outcome<Json>)
      modifies counter, server
      ensures counter.last == old(counter.last) + 1
      ensures server.sent == old(server.sent)
        + [Request(counter.last, "list_participants", ParticipantsParams(key, survey, attributes))]
      ensures server.replies == Rest(old(server.replies))
      ensures r == ParticipantsReply(Head(old(server.replies)), counter.last)
    {
      var a := Call("list_participants", ParticipantsParams(key, survey, attributes));
      if a.Raised? {
        r := Raised(a.exc);
      } else {
        r := ParticipantsResult(a.value.0, a.value.1);
      }
    }

    /** `participant_properties(survey, participant, attributes)` */
    method ParticipantProperties(survey: Json, participant: Json, attributes: Json) returns (r: Outcome<Json>)
      modifies counter, server
      ensures counter.last == old(counter.last) + 1
      ensures server.sent == old(server.sent)
        + [Request(counter.last, "get_participant_properties", [key, survey, participant, attributes])]
      ensures server.replies == Rest(old(server.replies))
      ensures r == (var a :- Answer(Head(old(server.replies)), counter.last); RaiseOnError(a.0, a.1))
    {
      var a := Call("get_participant_properties", [key, survey, participant, attributes]);
      if a.Raised? {
        r := Raised(a.exc);
      } else {
        r := RaiseOnError(a.value.0, a.value.1);
      }
    }

    /** `responses(survey, status)`: every response of a survey, in LSRC2's JSON export. */
    method Responses(survey: Json, status: Json, decode: string -> Option<Json>) returns (r: Outcome<Json>)
      modifies counter, server
      ensures counter.last == old(counter.last) + 1
      ensures server.sent == old(server.sent)
        + [Request(counter.last, "export_responses", [key, survey, Str("json"), Str("fr"), status])]
      ensures server.replies == Rest(old(server.replies))
      ensures r == ResponsesReply(Head(old(server.replies)), counter.last, decode)
    {
      var a := Call("export_responses", [key, survey, Str("json"), Str("fr"), status]);
      if a.Raised? {
        r := Raised(a.exc);
      } else {
        r := ResponsesResult(a.value.0, a.value.1, decode);
      }
    }
  }

  function ParticipantsParams(key: Json, survey: Json, attributes: Json): seq<Json>
  {
    [key, survey, Int(0), Int(5000), Bool(false), attributes]
  }
}
