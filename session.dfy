/**
 * The launcher's side of the session service (the status calls of http.go) and the cancel
 * function of main's context. Each call is recorded in the order it is made; whether the
 * service accepts it is fixed in advance.
 */
module Sessions {
  import opened Wrappers
  import opened Uuids

  /** sm.PixelStreamingSessionData: the session's id, its app's id and its status. */
  datatype SessionData = SessionData(id: Option<Uuid>, appId: Option<Uuid>, status: string)

  /** One status update the launcher sends. */
  datatype StatusCall =
    | InstanceStatus(instance: string, status: string)
    | SessionStatus(id: Option<Uuid>, appId: Option<Uuid>, status: string)

  class StatusService {
    /** The status updates sent so far, in order. */
    var sent: seq<StatusCall>
    /** The updates the service answers with an error (a failed request, an "error" envelope, ...). */
    const refuses: StatusCall -> bool

    constructor (failing: StatusCall -> bool)
      ensures sent == [] && refuses == failing
    {
      sent, refuses := [], failing;
    }

    /** SetInstanceStatus. */
    method SetInstanceStatus(instance: string, status: string) returns (ok: bool)
      modifies this
      ensures sent == old(sent) + [InstanceStatus(instance, status)]
      ensures ok <==> !refuses(InstanceStatus(instance, status))
    {
      var call := InstanceStatus(instance, status);
      sent := sent + [call];
      ok := !refuses(call);
    }

    /** SetSessionStatus for the session and app ids the caller holds. */
    method SetSessionStatus(id: Option<Uuid>, appId: Option<Uuid>, status: string) returns (ok: bool)
      modifies this
      ensures sent == old(sent) + [SessionStatus(id, appId, status)]
      ensures ok <==> !refuses(SessionStatus(id, appId, status))
    {
      var call := SessionStatus(id, appId, status);
      sent := sent + [call];
      ok := !refuses(call);
    }
  }

  /** The context main creates with context.WithCancel: cancelling it stops the web server. */
  class Context {
    var cancelled: bool

    constructor ()
      ensures !cancelled
    {
      cancelled := false;
    }

    method Cancel()
      modifies this
      ensures cancelled
    {
      cancelled := true;
    }
  }
}
