/** The request-logging middleware and the response writer it wraps around the real one to learn
    the status code. The next handler is modelled by the calls it makes on the writer; the
    real writer by the trace of calls forwarded to it. */
module Logging {
  import opened Common
  import opened RequestId

  const StatusOK: int := 200

  /** A call the next handler makes on the writer it was given. */
  datatype Action = WriteHeaderCall(code: int) | WriteCall(data: seq<byte>)

  /** A call forwarded to the underlying writer. */
  datatype Forward = ForwardHeader(code: int) | ForwardBody(data: seq<byte>)

  /** The wrapper's fields, together with what it has forwarded so far. */
  datatype WriterState = WriterState(status: int, wroteHeader: bool, forwarded: seq<Forward>)

  /** The wrapper as `Logging` creates it. */
  const Initial: WriterState := WriterState(StatusOK, false, [])

  /** One call on the wrapper: `WriteHeader` records and forwards only the first header;
      `Write` settles the status at 200 when no header was written, and always forwards. */
  function Step(st: WriterState, a: Action): (r: WriterState)
    ensures r.wroteHeader && st.forwarded <= r.forwarded
    ensures st.wroteHeader ==> r.status == st.status
    ensures !st.wroteHeader ==> r.status == if a.WriteHeaderCall? then a.code else StatusOK
  {
    match a
    case WriteHeaderCall(code) =>
      if !st.wroteHeader then WriterState(code, true, st.forwarded + [ForwardHeader(code)]) else st
    case WriteCall(data) =>
      var status := if !st.wroteHeader then StatusOK else st.status;
      WriterState(status, true, st.forwarded + [ForwardBody(data)])
  }

  /** The wrapper's state after a sequence of calls. */
  function Run(st: WriterState, actions: seq<Action>): (r: WriterState)
    ensures st.forwarded <= r.forwarded
    ensures actions != [] ==> r.wroteHeader
    ensures st.wroteHeader ==> r.wroteHeader && r.status == st.status
    decreases |actions|
  {
    if actions == [] then st else Run(Step(st, actions[0]), actions[1..])
  }

  /** `responseWriter`. */
  class ResponseWriter {
    var status: int
    var wroteHeader: bool
    var forwarded: seq<Forward>

    function State(): WriterState
      reads this
    {
      WriterState(status, wroteHeader, forwarded)
    }

    constructor ()
      ensures State() == Initial
    {
      status := StatusOK;
      wroteHeader := false;
      forwarded := [];
    }

    method WriteHeader(code: int)
      modifies this
      ensures State() == Step(old(State()), WriteHeaderCall(code))
    {
      if !wroteHeader {
        status := code;
        wroteHeader := true;
        forwarded := forwarded + [ForwardHeader(code)];
      }
    }

    method Write(data: seq<byte>)
      modifies this
      ensures State() == Step(old(State()), WriteCall(data))
    {
      if !wroteHeader {
        status := StatusOK;
        wroteHeader := true;
      }
      forwarded := forwarded + [ForwardBody(data)];
    }
  }

  /** The fields `Logging` records for a request (time and duration aside). */
  datatype LogEntry = LogEntry(httpMethod: string, path: string, status: int, requestId: string)

  /** `Logging`'s handler: wraps the writer, lets the next handler make its calls, and records
      the request. */
  method Serve(httpMethod: string, path: string, ctx: Context, next: seq<Action>)
    returns (entry: LogEntry, forwarded: seq<Forward>)
    ensures entry == LogEntry(httpMethod, path, LoggedStatus(next), FromContext(ctx))
    ensures forwarded == Forwarded(next)
  {
    var wrapped := new ResponseWriter();
    var i := 0;
    while i < |next|
      invariant 0 <= i <= |next|
      invariant Run(wrapped.State(), next[i..]) == Run(Initial, next)
    {
      assert next[i..][1..] == next[i + 1..];
      match next[i] {
        case WriteHeaderCall(code) => wrapped.WriteHeader(code);
        case WriteCall(data) => wrapped.Write(data);
      }
      i := i + 1;
    }
    RunLogged(next);
    entry := LogEntry(httpMethod, path, wrapped.status, FromContext(ctx));
    forwarded := wrapped.forwarded;
  }

  // ---------------------------------------------------------------------------------------
  // What the wrapper records, stated without replaying it
  // ---------------------------------------------------------------------------------------

  /** The status that ends up logged: the code of the first call when that is `WriteHeader`,
      200 otherwise, including when the handler makes no call at all. */
  function LoggedStatus(actions: seq<Action>): (status: int)
    ensures status == Run(Initial, actions).status
  {
    if actions != [] && actions[0].WriteHeaderCall? then actions[0].code else StatusOK
  }

  /** Every body written, in order. */
  function Bodies(actions: seq<Action>): seq<Forward>
    decreases |actions|
  {
    if actions == [] then []
    else (if actions[0].WriteCall? then [ForwardBody(actions[0].data)] else []) + Bodies(actions[1..])
  }

  /** What reaches the underlying writer: the first call's header when it is one, and every
      body. */
  function Forwarded(actions: seq<Action>): seq<Forward>
  {
    (if actions != [] && actions[0].WriteHeaderCall? then [ForwardHeader(actions[0].code)] else [])
      + Bodies(actions)
  }

  /** After the header is settled, headers are dropped and bodies pass through. */
  lemma {:induction false} RunSettled(st: WriterState, actions: seq<Action>)
    requires st.wroteHeader
    ensures Run(st, actions) == WriterState(st.status, true, st.forwarded + Bodies(actions))
    decreases |actions|
  {
    if actions == [] {
      assert st.forwarded + [] == st.forwarded;
    } else {
      RunSettled(Step(st, actions[0]), actions[1..]);
      var b := if actions[0].WriteCall? then [ForwardBody(actions[0].data)] else [];
      assert st.forwarded + b + Bodies(actions[1..]) == st.forwarded + (b + Bodies(actions[1..]));
    }
  }

  /** Replaying the calls from the initial wrapper gives the logged status and the forwarded
      calls, and the header is marked written once any call was made. */
  lemma RunLogged(actions: seq<Action>)
    ensures Run(Initial, actions).status == LoggedStatus(actions)
    ensures Run(Initial, actions).forwarded == Forwarded(actions)
    ensures Run(Initial, actions).wroteHeader <==> actions != []
  {
    if actions != [] {
      var st := Step(Initial, actions[0]);
      RunSettled(st, actions[1..]);
      if actions[0].WriteCall? {
        assert Bodies(actions) == [ForwardBody(actions[0].data)] + Bodies(actions[1..]);
      } else {
        assert Bodies(actions) == [] + Bodies(actions[1..]);
      }
    }
  }

  /** A `Write` before any header fixes the logged status at 200, whatever headers follow. */
  lemma WriteFirstLogsOK(data: seq<byte>, rest: seq<Action>)
    ensures LoggedStatus([WriteCall(data)] + rest) == StatusOK
    ensures Forwarded([WriteCall(data)] + rest) == Bodies([WriteCall(data)] + rest)
  {
    assert ([WriteCall(data)] + rest)[0] == WriteCall(data);
  }

  /** Every body the handler writes reaches the underlying writer unchanged and in order. */
  lemma {:induction false} BodiesIn(actions: seq<Action>, i: int)
    requires 0 <= i < |actions| && actions[i].WriteCall?
    ensures ForwardBody(actions[i].data) in Bodies(actions)
    decreases |actions|
  {
    if i > 0 {
      BodiesIn(actions[1..], i - 1);
    } else {
      assert Bodies(actions)[0] == ForwardBody(actions[0].data);
    }
  }
}
