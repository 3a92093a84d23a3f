/**
 What a response writer, a stack of status recorders and the three middlewares do, as functions
 (core/internal/middleware/access_log.go, recover.go, request_id.go, core/internal/server/server.go).

 A handler is the trace of what it does to its writer, ending in a return, a panic or runtime.Goexit.  A
 call that panics inside the writer and is not caught is the trace that stops there with a panic.
 */
module ResponseModel {
  import opened Wrappers
  import opened DenyList
  import opened ErrorCodes
  import opened PanicValues
  import opened HttpHeader
  import opened RequestId
  import opened QueryRedaction

  // ---------------------------------------------------------------- the server's own writer

  /** A header has all the values that Add gave it. */
  type Headers = map<string, seq<string>>

  function Values(headers: Headers, key: string): seq<string> {
    if key in headers then headers[key] else []
  }

  /** A piece of body: bytes of the handler, or the JSON text of an error response. */
  datatype Chunk = Bytes(data: string) | ErrorJson(code: string, message: string, requestId: string)

  /** A call that reaches the server's own writer. */
  datatype Call = HeaderCall(code: int) | DataCall(chunk: Chunk) | FlushCall

  /** The status line and headers that went out. */
  datatype Commit = Commit(status: int, headers: Headers)

  datatype Wire = Wire(headers: Headers, committed: Option<Commit>, calls: seq<Call>)

  /** Codes that net/http sends as the final status; other 1xx codes are interim. */
  predicate IsFinal(code: int) {
    code == 101 || 200 <= code <= 999
  }

  /** Codes that net/http refuses with a panic. */
  predicate IsInvalid(code: int) {
    code < 100 || code > 999
  }

  function WireCommit(w: Wire, code: int): Wire {
    if w.committed.None? then w.(committed := Some(Commit(code, w.headers))) else w
  }

  function WireWriteHeader(w: Wire, code: int): Wire {
    var called := w.(calls := w.calls + [HeaderCall(code)]);
    if IsFinal(code) then WireCommit(called, code) else called
  }

  function WireWrite(w: Wire, chunk: Chunk): Wire {
    WireCommit(w, 200).(calls := w.calls + [DataCall(chunk)])
  }

  function WireFlush(w: Wire): Wire {
    WireCommit(w, 200).(calls := w.calls + [FlushCall])
  }

  /** The status the client sees once the handler chain has returned. */
  function SeenStatus(w: Wire): int {
    if w.committed.Some? then w.committed.value.status else 200
  }

  // ---------------------------------------------------------------- recorders stacked on it

  /** One statusRecorder. */
  datatype Layer = Layer(status: int, wroteHeader: bool)

  const FRESH := Layer(200, false)

  /** A writer as a handler sees it: recorders, innermost middleware first, over the server's writer. */
  datatype Writer = Writer(layers: seq<Layer>, wire: Wire)

  function Inner(w: Writer): Writer
    requires w.layers != []
  {
    w.(layers := w.layers[1..])
  }

  function Under(layer: Layer, inner: Writer): Writer {
    inner.(layers := [layer] + inner.layers)
  }

  function WriteHeader(w: Writer, code: int): (r: Writer)
    ensures |r.layers| == |w.layers|
    decreases |w.layers|
  {
    if w.layers == [] then w.(wire := WireWriteHeader(w.wire, code))
    else if w.layers[0].wroteHeader then w
    else Under(Layer(code, true), WriteHeader(Inner(w), code))
  }

  /** Whether WriteHeader panics: the code reaches the server's writer, which refuses it. */
  predicate WriteHeaderPanics(w: Writer, code: int)
    decreases |w.layers|
  {
    if w.layers == [] then w.wire.committed.None? && IsInvalid(code)
    else !w.layers[0].wroteHeader && WriteHeaderPanics(Inner(w), code)
  }

  function Write(w: Writer, chunk: Chunk): (r: Writer)
    ensures |r.layers| == |w.layers|
    decreases |w.layers|
  {
    if w.layers == [] then w.(wire := WireWrite(w.wire, chunk))
    else
      var latched := if w.layers[0].wroteHeader then w else WriteHeader(w, 200);
      Under(latched.layers[0], Write(Inner(latched), chunk))
  }

  /** Flush goes straight through to the server's writer. */
  function Flush(w: Writer): Writer {
    w.(wire := WireFlush(w.wire))
  }

  /** Header().Set */
  function SetHeader(w: Writer, key: string, value: string): Writer {
    w.(wire := w.wire.(headers := w.wire.headers[CanonicalKey(key) := [value]]))
  }

  /** Header().Add */
  function AddHeader(w: Writer, key: string, value: string): Writer {
    var k := CanonicalKey(key);
    w.(wire := w.wire.(headers := w.wire.headers[k := Values(w.wire.headers, k) + [value]]))
  }

  /** Header().Del */
  function DelHeader(w: Writer, key: string): Writer {
    w.(wire := w.wire.(headers := w.wire.headers - {CanonicalKey(key)}))
  }

  datatype Step =
    | DoSetHeader(key: string, value: string)
    | DoAddHeader(key: string, value: string)
    | DoDelHeader(key: string)
    | DoWriteHeader(code: int)
    | DoWrite(chunk: Chunk)
    | DoFlush

  function Apply(w: Writer, s: Step): (r: Writer)
    ensures |r.layers| == |w.layers|
  {
    match s
    case DoSetHeader(k, v) => SetHeader(w, k, v)
    case DoAddHeader(k, v) => AddHeader(w, k, v)
    case DoDelHeader(k) => DelHeader(w, k)
    case DoWriteHeader(code) => WriteHeader(w, code)
    case DoWrite(chunk) => Write(w, chunk)
    case DoFlush => Flush(w)
  }

  function ApplyAll(w: Writer, steps: seq<Step>): (r: Writer)
    ensures |r.layers| == |w.layers|
    decreases |steps|
  {
    if steps == [] then w else ApplyAll(Apply(w, steps[0]), steps[1..])
  }

  // ---------------------------------------------------------------- the middlewares

  /** How a handler ends; Exited stands for runtime.Goexit, which unwinds without a panic. */
  datatype Ending = Returned | Panicked(value: PanicValue) | Exited

  /** The panics that Recover turns into a response. */
  predicate IsCaught(ending: Ending) {
    ending.Panicked? && Logged(ending.value).Ok?
  }

  /** How Recover ends, given how the handler below it does: a value that cannot be logged panics anew. */
  function Outcome(ending: Ending): Ending {
    if !ending.Panicked? then ending
    else
      match Logged(ending.value)
      case Ok(_) => Returned
      case Err(raised) => Panicked(raised)
  }

  datatype Handler =
    | App(steps: seq<Step>, ending: Ending)
    | Recover(next: Handler)
    | AccessLog(next: Handler)
    | WithRequestId(generated: string, next: Handler)  // `generated`: what newRequestID would return

  datatype Level = Info | Warn | Error

  function LevelFromStatus(status: int): Level {
    if status >= 500 then Error else if status >= 400 then Warn else Info
  }

  datatype Record =
    | Access(level: Level, requestId: string, method_: string, path: string, status: int, clientRequestId: string)
    | PanicCaught(requestId: string, value: string, alreadyWritten: Option<int>)
    | PanicResponseFailed(requestId: string)

  /** `bodyAccepted`: whether the server takes the body of a panic response. */
  datatype Request = Request(method_: string, escapedPath: string, rawQuery: string, clientId: string,
                             bodyAccepted: bool)

  datatype Context = Context(requestId: string, clientRequestId: string)

  datatype Server = Server(writer: Writer, records: seq<Record>)

  const X_REQUEST_ID := "X-Request-Id"
  const CONTENT_TYPE := "Content-Type"
  const JSON_UTF8 := "application/json; charset=utf-8"

  lemma CanonicalNames()
    ensures CanonicalKey(X_REQUEST_ID) == X_REQUEST_ID && CanonicalKey(CONTENT_TYPE) == CONTENT_TYPE
  {
    assert IsToken(X_REQUEST_ID) && IsToken(CONTENT_TYPE);
  }

  /** apperror.WriteJSON for the fixed internal error. */
  function PanicResponse(requestId: string): seq<Step> {
    [DoSetHeader(CONTENT_TYPE, JSON_UTF8),
     DoWriteHeader(500),
     DoWrite(ErrorJson(INTERNAL_ERROR, INTERNAL_ERROR_MESSAGE, requestId))]
  }

  function Push(s: Server): Server {
    s.(writer := Under(FRESH, s.writer))
  }

  function Pop(s: Server): Server
    requires s.writer.layers != []
  {
    s.(writer := Inner(s.writer))
  }

  function AccessRecord(lower: Lower, req: Request, ctx: Context, status: int): Record {
    Access(LevelFromStatus(status), ctx.requestId, req.method_,
           RedactedPath(lower, req.escapedPath, req.rawQuery), status, ctx.clientRequestId)
  }

  /**
   The deferred function of Recover, run with the recorder still on the writer.  The text of the value is
   needed for the log before anything is answered.
   */
  function AfterPanic(s: Server, req: Request, ctx: Context, value: PanicValue): (r: (Server, Ending))
    requires s.writer.layers != []
    ensures |r.0.writer.layers| == |s.writer.layers|
  {
    match Logged(value)
    case Err(raised) => (s, Panicked(raised))
    case Ok(text) =>
      var rec := s.writer.layers[0];
      var caught := s.(records := s.records
                         + [PanicCaught(ctx.requestId, text, if rec.wroteHeader then Some(rec.status) else None)]);
      if rec.wroteHeader then (caught, Returned)
      else
        (Server(ApplyAll(s.writer, PanicResponse(ctx.requestId)),
                caught.records + if req.bodyAccepted then [] else [PanicResponseFailed(ctx.requestId)]),
         Returned)
  }

  function Serve(lower: Lower, h: Handler, s: Server, req: Request, ctx: Context): (r: (Server, Ending))
    ensures |r.0.writer.layers| == |s.writer.layers|
    decreases h
  {
    match h
    case App(steps, ending) => (s.(writer := ApplyAll(s.writer, steps)), ending)
    case Recover(next) =>
      var (inner, ending) := Serve(lower, next, Push(s), req, ctx);
      if !ending.Panicked? then (Pop(inner), ending)
      else
        var (after, outcome) := AfterPanic(inner, req, ctx, ending.value);
        (Pop(after), outcome)
    case AccessLog(next) =>
      var (inner, ending) := Serve(lower, next, Push(s), req, ctx);
      var record := AccessRecord(lower, req, ctx, inner.writer.layers[0].status);
      (Pop(inner.(records := inner.records + [record])), ending)
    case WithRequestId(generated, next) =>
      var choice := Choose(req.clientId, generated);
      var named := s.(writer := SetHeader(s.writer, X_REQUEST_ID, choice.id));
      Serve(lower, next, named, req, Context(choice.id, choice.clientForLog))
  }

  /** server.New: recover innermost, then the access log, then the request id. */
  function Chain(generated: string, mux: Handler): Handler {
    WithRequestId(generated, AccessLog(Recover(mux)))
  }

  const IDLE := Server(Writer([], Wire(map[], None, [])), [])

  function ServeRequest(lower: Lower, h: Handler, req: Request): (Server, Ending) {
    Serve(lower, h, IDLE, req, Context("", ""))
  }
}
