/**
 * The process-wide error handler: what a client receives when a handler
 * forwards a fault instead of responding.
 */
module App {
  import opened Wrappers
  import opened Todos
  import opened TodoController

  /** `err.status || 500`: a missing or zero status tag becomes 500. */
  function FaultStatus(f: Fault): (s: int)
    ensures s != 0
    ensures f.status.Some? && f.status.value != 0 ==> s == f.status.value
    ensures f.status.None? || f.status.value == 0 ==> s == 500
  {
    if f.status.Some? && f.status.value != 0 then f.status.value else 500
  }

  /** `{ error: err.message || "Unknown error" }`: the message, or a fixed text when it is empty. */
  function FaultBody(f: Fault): (b: Body)
    ensures b.ErrorMessage? && b.error != []
    ensures f.message != [] ==> b.error == f.message
    ensures f.message == [] ==> b.error == "Unknown error"
  {
    ErrorMessage(if f.message != [] then f.message else "Unknown error")
  }

  /**
   * The response the client receives for a handler's outcome: a handler's own
   * response goes out as it is, and a forwarded fault always gets a real
   * status and a non-empty error message.
   */
  function Deliver(o: Outcome): (r: Response)
    ensures o.Responded? ==> r == o.response
    ensures o.Forwarded? ==> r.status != 0 && r.body.ErrorMessage? && r.body.error != []
    ensures o.Forwarded? && (o.fault.status.None? || o.fault.status.value == 0) ==> r.status == 500
    ensures o.Forwarded? && o.fault.status.Some? && o.fault.status.value != 0 ==> r.status == o.fault.status.value
    ensures o.Forwarded? && o.fault.message != [] ==> r.body.error == o.fault.message
  {
    match o
    case Responded(response) => response
    case Forwarded(f) => Response(FaultStatus(f), FaultBody(f))
  }

  /** An untagged storage fault reaches the client as 500 with the engine's message. */
  lemma UntaggedFaultIs500(f: Fault)
    requires f.status.None? && f.message != []
    ensures Deliver(Forwarded(f)) == Response(500, ErrorMessage(f.message))
  {
  }

  /** Running out of ids on create reaches the client as a 500. */
  lemma TableFullIs500()
    ensures Deliver(Forwarded(TableFull)) == Response(500, ErrorMessage("database or disk is full"))
  {
  }
}
