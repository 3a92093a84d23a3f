/**
 The response path as the program runs it: writers that update their fields and middlewares that wrap
 them, proved to do what `ResponseModel` says.

 A statusRecorder embeds another writer.  The embedding never changes, so the footprint of a writer is
 a constant of it.
 */
module Middleware {
  import opened Wrappers
  import opened Counter64
  import opened DenyList
  import opened HttpHeader
  import opened PanicValues
  import opened RequestId
  import M = ResponseModel
  import ResponseChain

  // ---------------------------------------------------------------- writers

  /** http.ResponseWriter: the server's own writer or a recorder around another writer. */
  datatype Target = Net(net: NetWriter) | Rec(rec: StatusRecorder)

  ghost function Depth(t: Target): nat {
    match t
    case Net(_) => 0
    case Rec(r) => r.depth
  }

  ghost function Footprint(t: Target): set<object> {
    match t
    case Net(n) => {n}
    case Rec(r) => r.Repr
  }

  ghost predicate Valid(t: Target)
    decreases Depth(t)
  {
    match t
    case Net(_) => true
    case Rec(r) =>
      && r !in Footprint(r.inner)
      && r.Repr == {r} + Footprint(r.inner)
      && Depth(r.inner) < r.depth
      && Valid(r.inner)
  }

  /** The writer as a value. */
  ghost function View(t: Target): M.Writer
    requires Valid(t)
    reads Footprint(t)
    decreases Depth(t)
  {
    match t
    case Net(n) => M.Writer([], n.Value())
    case Rec(r) => M.Under(M.Layer(r.status, r.wroteHeader), View(r.inner))
  }

  /** The response writer of net/http, below all middlewares. */
  class NetWriter {
    var headers: M.Headers
    var committed: Option<M.Commit>
    var calls: seq<M.Call>

    constructor ()
      ensures Value() == M.IDLE.writer.wire
    {
      headers := map[];
      committed := None;
      calls := [];
    }

    ghost function Value(): M.Wire
      reads this
    {
      M.Wire(headers, committed, calls)
    }

    method SetHeader(key: string, value: string)
      modifies this
      ensures M.Writer([], Value()) == M.SetHeader(M.Writer([], old(Value())), key, value)
    {
      headers := headers[CanonicalKey(key) := [value]];
    }

    method AddHeader(key: string, value: string)
      modifies this
      ensures M.Writer([], Value()) == M.AddHeader(M.Writer([], old(Value())), key, value)
    {
      var k := CanonicalKey(key);
      headers := headers[k := M.Values(headers, k) + [value]];
    }

    method DelHeader(key: string)
      modifies this
      ensures M.Writer([], Value()) == M.DelHeader(M.Writer([], old(Value())), key)
    {
      headers := headers - {CanonicalKey(key)};
    }

    method WriteHeader(code: int) returns (panicked: bool)
      modifies this
      ensures Value() == M.WireWriteHeader(old(Value()), code)
      ensures panicked == (old(committed).None? && M.IsInvalid(code))
    {
      calls := calls + [M.HeaderCall(code)];
      panicked := false;
      if committed.None? {
        if code < 100 || code > 999 {
          panicked := true;
        } else if code >= 200 || code == 101 {
          committed := Some(M.Commit(code, headers));
        }
      }
    }

    method Write(chunk: M.Chunk)
      modifies this
      ensures Value() == M.WireWrite(old(Value()), chunk)
    {
      if committed.None? {
        committed := Some(M.Commit(200, headers));
      }
      calls := calls + [M.DataCall(chunk)];
    }

    method Flush()
      modifies this
      ensures Value() == M.WireFlush(old(Value()))
    {
      if committed.None? {
        committed := Some(M.Commit(200, headers));
      }
      calls := calls + [M.FlushCall];
    }
  }

  /** statusRecorder. */
  class StatusRecorder {
    const inner: Target
    var status: int
    var wroteHeader: bool
    ghost const depth: nat
    ghost const Repr: set<object>

    constructor (w: Target)
      requires Valid(w)
      ensures inner == w && status == 200 && !wroteHeader
      ensures Valid(Rec(this)) && Repr == {this} + Footprint(w)
      ensures fresh(this)
    {
      inner := w;
      status := 200;
      wroteHeader := false;
      depth := Depth(w) + 1;
      Repr := {this} + Footprint(w);
    }

    method WriteHeader(code: int) returns (panicked: bool)
      requires Valid(Rec(this))
      modifies Repr
      ensures View(Rec(this)) == M.WriteHeader(old(View(Rec(this))), code)
      ensures panicked == M.WriteHeaderPanics(old(View(Rec(this))), code)
      decreases depth, 0
    {
      ghost var before := View(Rec(this));
      assert M.Inner(before) == View(inner);
      if wroteHeader {
        return false;
      }
      wroteHeader := true;
      status := code;
      panicked := WriteHeaderTo(inner, code);
    }

    method Write(chunk: M.Chunk)
      requires Valid(Rec(this))
      modifies Repr
      ensures View(Rec(this)) == M.Write(old(View(Rec(this))), chunk)
      decreases depth, 0
    {
      if !wroteHeader {
        var _ := WriteHeader(200);
      }
      ghost var latched := View(Rec(this));
      assert M.Inner(latched) == View(inner);
      WriteTo(inner, chunk);
    }

    method Flush()
      requires Valid(Rec(this))
      modifies Footprint(inner)
      ensures View(Rec(this)) == M.Flush(old(View(Rec(this))))
      decreases depth, 0
    {
      FlushTo(inner);
    }
  }

  // Calls through the http.ResponseWriter interface.

  method WriteHeaderTo(t: Target, code: int) returns (panicked: bool)
    requires Valid(t)
    modifies Footprint(t)
    ensures View(t) == M.WriteHeader(old(View(t)), code)
    ensures panicked == M.WriteHeaderPanics(old(View(t)), code)
    decreases Depth(t), 1
  {
    match t
    case Net(n) => panicked := n.WriteHeader(code);
    case Rec(r) => panicked := r.WriteHeader(code);
  }

  method WriteTo(t: Target, chunk: M.Chunk)
    requires Valid(t)
    modifies Footprint(t)
    ensures View(t) == M.Write(old(View(t)), chunk)
    decreases Depth(t), 1
  {
    match t
    case Net(n) => n.Write(chunk);
    case Rec(r) => r.Write(chunk);
  }

  method FlushTo(t: Target)
    requires Valid(t)
    modifies Footprint(t)
    ensures View(t) == M.Flush(old(View(t)))
    decreases Depth(t), 1
  {
    match t
    case Net(n) => n.Flush();
    case Rec(r) => r.Flush();
  }

  /** w.Header().Set through any number of recorders reaches the one header map. */
  method SetHeaderOn(t: Target, key: string, value: string)
    requires Valid(t)
    modifies Footprint(t)
    ensures View(t) == M.SetHeader(old(View(t)), key, value)
    decreases Depth(t)
  {
    match t
    case Net(n) => n.SetHeader(key, value);
    case Rec(r) => SetHeaderOn(r.inner, key, value);
  }

  method AddHeaderOn(t: Target, key: string, value: string)
    requires Valid(t)
    modifies Footprint(t)
    ensures View(t) == M.AddHeader(old(View(t)), key, value)
    decreases Depth(t)
  {
    match t
    case Net(n) => n.AddHeader(key, value);
    case Rec(r) => AddHeaderOn(r.inner, key, value);
  }

  method DelHeaderOn(t: Target, key: string)
    requires Valid(t)
    modifies Footprint(t)
    ensures View(t) == M.DelHeader(old(View(t)), key)
    decreases Depth(t)
  {
    match t
    case Net(n) => n.DelHeader(key);
    case Rec(r) => DelHeaderOn(r.inner, key);
  }

  method Perform(t: Target, s: M.Step)
    requires Valid(t)
    modifies Footprint(t)
    ensures View(t) == M.Apply(old(View(t)), s)
  {
    match s
    case DoSetHeader(k, v) => SetHeaderOn(t, k, v);
    case DoAddHeader(k, v) => AddHeaderOn(t, k, v);
    case DoDelHeader(k) => DelHeaderOn(t, k);
    case DoWriteHeader(code) => var _ := WriteHeaderTo(t, code);
    case DoWrite(chunk) => WriteTo(t, chunk);
    case DoFlush => FlushTo(t);
  }

  method PerformAll(t: Target, steps: seq<M.Step>)
    requires Valid(t)
    modifies Footprint(t)
    ensures View(t) == M.ApplyAll(old(View(t)), steps)
  {
    var rest := steps;
    while rest != []
      invariant M.ApplyAll(View(t), rest) == M.ApplyAll(old(View(t)), steps)
      decreases |rest|
    {
      Perform(t, rest[0]);
      rest := rest[1..];
    }
  }

  // ---------------------------------------------------------------- middlewares

  class Logger {
    var records: seq<M.Record>

    constructor ()
      ensures records == []
    {
      records := [];
    }

    method Append(r: M.Record)
      modifies this
      ensures records == old(records) + [r]
    {
      records := records + [r];
    }
  }

  ghost function Snapshot(t: Target, log: Logger): M.Server
    requires Valid(t)
    reads Footprint(t), log
  {
    M.Server(View(t), log.records)
  }

  /**
   The deferred function of Recover once it has found a panic.  Getting the text of the value for the
   log may panic.
   */
  method AfterPanic(rw: StatusRecorder, log: Logger, req: M.Request, ctx: M.Context, value: PanicValue)
    returns (outcome: M.Ending)
    requires Valid(Rec(rw)) && log !in rw.Repr
    modifies rw.Repr, log
    ensures (Snapshot(Rec(rw), log), outcome) == M.AfterPanic(old(Snapshot(Rec(rw), log)), req, ctx, value)
  {
    var alreadyWritten := if rw.wroteHeader then Some(rw.status) else None;
    var text := Logged(value);
    if text.Err? {
      return M.Panicked(text.error);
    }
    log.Append(M.PanicCaught(ctx.requestId, text.value, alreadyWritten));
    if rw.wroteHeader {
      return M.Returned;
    }
    PerformAll(Rec(rw), M.PanicResponse(ctx.requestId));
    if !req.bodyAccepted {
      log.Append(M.PanicResponseFailed(ctx.requestId));
    }
    outcome := M.Returned;
    assert Snapshot(Rec(rw), log) == M.AfterPanic(old(Snapshot(Rec(rw), log)), req, ctx, value).0;
  }

  /** ServeHTTP of a handler, with its deferred functions run whatever the ending. */
  method Serve(lower: Lower, h: M.Handler, w: Target, log: Logger, req: M.Request, ctx: M.Context)
    returns (ending: M.Ending)
    requires Valid(w) && log !in Footprint(w)
    modifies Footprint(w), log
    ensures (Snapshot(w, log), ending) == M.Serve(lower, h, old(Snapshot(w, log)), req, ctx)
    decreases h
  {
    match h
    case App(steps, end) =>
      PerformAll(w, steps);
      ending := end;
    case Recover(next) =>
      var rw := new StatusRecorder(w);
      ghost var pushed := Snapshot(Rec(rw), log);
      assert pushed == M.Push(old(Snapshot(w, log)));
      ending := Serve(lower, next, Rec(rw), log, req, ctx);
      if ending.Panicked? {
        ending := AfterPanic(rw, log, req, ctx, ending.value);
      }
      assert M.Pop(Snapshot(Rec(rw), log)) == Snapshot(w, log);
    case AccessLog(next) =>
      var rw := new StatusRecorder(w);
      ghost var pushed := Snapshot(Rec(rw), log);
      assert pushed == M.Push(old(Snapshot(w, log)));
      ending := Serve(lower, next, Rec(rw), log, req, ctx);
      log.Append(M.AccessRecord(lower, req, ctx, rw.status));
      assert M.Pop(Snapshot(Rec(rw), log)) == Snapshot(w, log);
    case WithRequestId(generated, next) =>
      var valid := IsValidRequestId(req.clientId);
      var id := if valid then req.clientId else generated;
      var clientForLog := "";
      if !valid && req.clientId != "" {
        clientForLog := SanitizeClientRequestId(req.clientId);
      }
      SetHeaderOn(w, M.X_REQUEST_ID, id);
      ending := Serve(lower, next, w, log, req, M.Context(id, clientForLog));
  }

  /** The response carries `id` exactly if the handler's own edits of that header leave it so. */
  ghost predicate CarriesId(sent: M.Wire, steps: seq<M.Step>, id: string) {
    ResponseChain.SentValues(sent, M.X_REQUEST_ID) == [id] <==>
    ResponseChain.HeaderSent(steps, false, M.X_REQUEST_ID, [id]) == [id]
  }

  /** A request for which newRequestID returns `generated` if it is called. */
  method HandleNamed(lower: Lower, generated: string, steps: seq<M.Step>, end: M.Ending, req: M.Request)
    returns (net: NetWriter, log: Logger, ending: M.Ending)
    ensures fresh(net) && fresh(log)
    ensures ending == M.Outcome(end)
    ensures ResponseChain.LogsOnce(Snapshot(Net(net), log), ending, steps, end)
    ensures ResponseChain.Describes(log.records[|log.records| - 1], lower, req)
    ensures ResponseChain.LogsPanic(log.records, log.records[|log.records| - 1].requestId, steps, end, req)
    ensures log.records[|log.records| - 1].requestId == Choose(req.clientId, generated).id
    ensures CarriesId(net.Value(), steps, log.records[|log.records| - 1].requestId)
  {
    net := new NetWriter();
    log := new Logger();
    assert Snapshot(Net(net), log) == M.IDLE;
    ending := Serve(lower, M.Chain(generated, M.App(steps, end)), Net(net), log, req, M.Context("", ""));
    ResponseChain.ChainLogsWhatTheClientSaw(lower, generated, steps, end, req);
    ResponseChain.ResponseCarriesLoggedRequestId(lower, generated, steps, end, req);
  }

  /**
   One request through the handler that server.New builds, on a connection of its own.  An identifier is
   drawn only for a request that brings no valid one; the one in the log is valid exactly if the client's
   was, or a UUID was made, or the fallback parts fit.
   */
  method HandleRequest(lower: Lower, ids: IdSource, uuid: Uuid, now: int, steps: seq<M.Step>, end: M.Ending,
                       req: M.Request)
    returns (net: NetWriter, log: Logger, ending: M.Ending)
    requires ids.Valid()
    modifies ids
    ensures ids.Valid()
    ensures ids.readings == if IsValid(req.clientId) || uuid.Some? then old(ids.readings) else old(ids.readings) + [now]
    ensures fresh(net) && fresh(log)
    ensures ending == M.Outcome(end)
    ensures ResponseChain.LogsOnce(Snapshot(Net(net), log), ending, steps, end)
    ensures ResponseChain.Describes(log.records[|log.records| - 1], lower, req)
    ensures ResponseChain.LogsPanic(log.records, log.records[|log.records| - 1].requestId, steps, end, req)
    ensures ids.history == if IsValid(req.clientId) then old(ids.history)
                           else old(ids.history) + [log.records[|log.records| - 1].requestId]
    ensures var n := Int64(|old(ids.readings)| + 1);
            var id := log.records[|log.records| - 1].requestId;
            && id == (if IsValid(req.clientId) then req.clientId else Generated(uuid, ids.host, ids.pid, now, n))
            && (IsValid(id) <==> IsValid(req.clientId) || GeneratesValid(uuid, ids.host, ids.pid, now, n))
            && CarriesId(net.Value(), steps, id)
  {
    var generated := "";
    if !IsValid(req.clientId) {
      generated := ids.NewRequestId(uuid, now);
    }
    net, log, ending := HandleNamed(lower, generated, steps, end, req);
  }
}
