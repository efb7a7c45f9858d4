/**
 * The web server's two handlers (server.go): the health check, which closes the session once the
 * signalling server has seen it running for long enough and otherwise echoes its status, and
 * the close-session handler, which closes the session and stops the server.
 */
module Server {
  import opened Wrappers
  import opened Numeric
  import opened Strings
  import opened Sessions

  /** The number of health checks after which a running session is closed. */
  const ClosingCount := 20

  /** A request's query: each key with the values given for it, in order. */
  type Query = map<string, seq<string>>

  /** url.Values.Get: the first value of the key, or "" when there is none. */
  function QueryGet(q: Query, key: string): (r: string)
    ensures key !in q || q[key] == [] ==> r == ""
    ensures key in q && q[key] != [] ==> r == q[key][0]
  {
    if key in q && q[key] != [] then q[key][0] else ""
  }

  /** What GetSessionData returns: an error, or the session, which is nil when the envelope held none. */
  datatype Fetch = FetchFailed | Fetched(data: Option<SessionData>)

  /** The decision of healthCheck for the fetched status and the totalCheck parameter. */
  predicate Closes(status: string, totalCheck: string) {
    status == "running" && Atoi(totalCheck).value >= ClosingCount
  }

  /**
   * The decision in terms of the parameter's text: a well-formed count of at least 20, or a
   * positive count too large for an int, whose clamped value Atoi returns along with its error.
   */
  lemma ClosesExactly(status: string, totalCheck: string)
    ensures Closes(status, totalCheck) <==>
      status == "running" &&
      ((Atoi(totalCheck).ok && Atoi(totalCheck).value >= ClosingCount) ||
       Atoi(totalCheck) == AtoiResult(MAX_INT64, false))
  {
  }

  /** A request without totalCheck never closes the session. */
  lemma MissingCountKeepsSession(status: string, q: Query)
    requires "totalCheck" !in q
    ensures !Closes(status, QueryGet(q, "totalCheck"))
  {
    AtoiEmpty();
  }

  /** Nor does a short parameter with a non-digit after its first character. */
  lemma NonNumericCountKeepsSession(status: string, totalCheck: string, k: nat)
    requires 0 < |totalCheck| < 19 && 0 < k < |totalCheck| && !IsDigit(totalCheck[k])
    ensures !Closes(status, totalCheck)
  {
    AtoiNonNumeric(totalCheck, k);
  }

  /** A running session is closed at the twentieth check and every later one. */
  lemma RunningClosesFromTwenty(n: nat)
    requires ClosingCount <= n < Pow10(18)
    ensures Closes("running", Decimal(n))
  {
    AtoiDecimal(n);
  }

  /** A session in any other state is never closed, whatever the count. */
  lemma OnlyRunningCloses(status: string, totalCheck: string)
    requires status != "running"
    ensures !Closes(status, totalCheck)
  {
  }

  /** http.ResponseWriter: the status code that goes out (the first one written) and the bodies written. */
  class ResponseWriter {
    var code: Option<int>
    var bodies: seq<map<string, string>>

    constructor ()
      ensures code.None? && bodies == []
    {
      code, bodies := None, [];
    }

    /** A later WriteHeader is superfluous: the first code stays. */
    method WriteHeader(c: int)
      modifies this
      ensures code == if old(code).None? then Some(c) else old(code)
      ensures bodies == old(bodies)
    {
      if code.None? {
        code := Some(c);
      }
    }

    /** A write without an earlier WriteHeader sends 200. */
    method Write(body: map<string, string>)
      modifies this
      ensures code == if old(code).None? then Some(200) else old(code)
      ensures bodies == old(bodies) + [body]
    {
      if code.None? {
        code := Some(200);
      }
      bodies := bodies + [body];
    }
  }

  /** The body of the echo: the JSON object {"sessionStatus": status}. */
  function StatusBody(status: string): (r: map<string, string>)
    ensures r.Keys == {"sessionStatus"} && r["sessionStatus"] == status
  {
    map["sessionStatus" := status]
  }

  /** A nil session is dereferenced: the global one, or the fetched one. */
  predicate HealthPanics(current: Option<SessionData>, fetch: Fetch) {
    current.None? || fetch.FetchFailed? || fetch.data.None?
  }

  /**
   * healthCheck. current is the launcher's session global, fetch what GetSessionData returns for
   * its id. A fetch error and a malformed count each write 500 and the handler goes on; a nil
   * session then panics. A running session with a count of at least 20 is closed, and a refused
   * close writes 500; any other session is echoed with 200.
   */
  method HealthCheck(svc: StatusService, w: ResponseWriter, current: Option<SessionData>, fetch: Fetch, q: Query)
    returns (panicked: bool)
    modifies svc, w
    ensures panicked <==> HealthPanics(current, fetch)
    ensures !panicked && Closes(fetch.data.value.status, QueryGet(q, "totalCheck")) ==>
      svc.sent == old(svc.sent) + [SessionStatus(current.value.id, current.value.appId, "closed")] &&
      w.bodies == old(w.bodies)
    ensures !panicked && !Closes(fetch.data.value.status, QueryGet(q, "totalCheck")) ==>
      svc.sent == old(svc.sent) && w.bodies == old(w.bodies) + [StatusBody(fetch.data.value.status)]
    ensures panicked ==> svc.sent == old(svc.sent) && w.bodies == old(w.bodies)
    ensures old(w.code).Some? ==> w.code == old(w.code)
    ensures old(w.code).None? && current.Some? && (fetch.FetchFailed? || !Atoi(QueryGet(q, "totalCheck")).ok) ==>
      w.code == Some(500)
    ensures old(w.code).None? && !panicked && Atoi(QueryGet(q, "totalCheck")).ok ==>
      w.code == if !Closes(fetch.data.value.status, QueryGet(q, "totalCheck")) then Some(200)
                else if svc.refuses(SessionStatus(current.value.id, current.value.appId, "closed")) then Some(500)
                else None
  {
    if current.None? {
      return true;
    }
    if fetch.FetchFailed? {
      w.WriteHeader(500);
    }
    var t := QueryGet(q, "totalCheck");
    var count := Atoi(t);
    if !count.ok {
      w.WriteHeader(500);
    }
    if fetch.FetchFailed? || fetch.data.None? {
      return true;
    }
    var sess := fetch.data.value;
    if sess.status == "running" && count.value >= ClosingCount {
      var ok := svc.SetSessionStatus(current.value.id, current.value.appId, "closed");
      if !ok {
        w.WriteHeader(500);
      }
      return false;
    } else {
      w.WriteHeader(200);
      w.Write(StatusBody(sess.status));
      return false;
    }
  }

  /**
   * closeSession: the session is closed and the context cancelled, whether or not the service
   * accepted the close; a refused close writes 500. A nil session global panics first.
   */
  method CloseSession(svc: StatusService, w: ResponseWriter, ctx: Context, current: Option<SessionData>)
    returns (panicked: bool)
    modifies svc, w, ctx
    ensures panicked <==> current.None?
    ensures panicked ==> svc.sent == old(svc.sent) && ctx.cancelled == old(ctx.cancelled) && w.code == old(w.code)
    ensures !panicked ==>
      svc.sent == old(svc.sent) + [SessionStatus(current.value.id, current.value.appId, "closed")] && ctx.cancelled
    ensures !panicked ==>
      w.code == if old(w.code).None? && svc.refuses(SessionStatus(current.value.id, current.value.appId, "closed"))
                then Some(500) else old(w.code)
    ensures w.bodies == old(w.bodies)
  {
    if current.None? {
      return true;
    }
    var ok := svc.SetSessionStatus(current.value.id, current.value.appId, "closed");
    if !ok {
      w.WriteHeader(500);
    }
    ctx.Cancel();
    return false;
  }
}
