/**
 The promises of the middleware chain, for every handler trace: what is logged, what the client sees,
 and when the two are the same.
 */
module ResponseChain {
  import opened Wrappers
  import AppError
  import opened DenyList
  import opened ErrorCodes
  import opened HttpHeader
  import opened PanicValues
  import opened RequestId
  import opened QueryRedaction
  import opened Text
  import opened ResponseModel

  // ---------------------------------------------------------------- what a trace asks for

  /** The code that the first WriteHeader or Write of a trace stands for. */
  function FirstCode(steps: seq<Step>): Option<int> {
    if steps == [] then None
    else
      match steps[0]
      case DoWriteHeader(code) => Some(code)
      case DoWrite(_) => Some(200)
      case _ => FirstCode(steps[1..])
  }

  /** The trace flushes before its first WriteHeader or Write. */
  predicate FlushesFirst(steps: seq<Step>) {
    steps != [] && !steps[0].DoWriteHeader? && !steps[0].DoWrite? && (steps[0].DoFlush? || FlushesFirst(steps[1..]))
  }

  function Chunks(steps: seq<Step>): seq<Chunk> {
    if steps == [] then []
    else (if steps[0].DoWrite? then [steps[0].chunk] else []) + Chunks(steps[1..])
  }

  function CalledChunks(calls: seq<Call>): seq<Chunk> {
    if calls == [] then []
    else (if calls[0].DataCall? then [calls[0].chunk] else []) + CalledChunks(calls[1..])
  }

  // ---------------------------------------------------------------- a stack is one recorder

  /** `n` recorders that agree. */
  function Stack(n: nat, layer: Layer, wire: Wire): Writer {
    Writer(seq(n, _ => layer), wire)
  }

  lemma StackInner(n: nat, layer: Layer, wire: Wire)
    requires n >= 1
    ensures Inner(Stack(n, layer, wire)) == Stack(n - 1, layer, wire)
    ensures Under(layer, Stack(n - 1, layer, wire)) == Stack(n, layer, wire)
  {
  }

  lemma {:induction false} StackWriteHeader(n: nat, layer: Layer, wire: Wire, code: int)
    requires n >= 1
    ensures WriteHeader(Stack(n, layer, wire), code) ==
            if layer.wroteHeader then Stack(n, layer, wire)
            else Stack(n, Layer(code, true), WireWriteHeader(wire, code))
  {
    StackInner(n, layer, wire);
    StackInner(n, Layer(code, true), WireWriteHeader(wire, code));
    if n > 1 {
      StackWriteHeader(n - 1, layer, wire, code);
    } else if !layer.wroteHeader {
      assert Stack(0, layer, wire).layers == [];
      assert Stack(0, Layer(code, true), WireWriteHeader(wire, code)).layers == [];
    }
  }

  lemma {:induction false} StackWriteLatched(n: nat, layer: Layer, wire: Wire, chunk: Chunk)
    requires layer.wroteHeader
    ensures Write(Stack(n, layer, wire), chunk) == Stack(n, layer, WireWrite(wire, chunk))
  {
    if n > 0 {
      StackInner(n, layer, wire);
      StackInner(n, layer, WireWrite(wire, chunk));
      StackWriteLatched(n - 1, layer, wire, chunk);
    }
  }

  lemma StackWrite(n: nat, layer: Layer, wire: Wire, chunk: Chunk)
    requires n >= 1
    ensures Write(Stack(n, layer, wire), chunk) ==
            if layer.wroteHeader then Stack(n, layer, WireWrite(wire, chunk))
            else Stack(n, Layer(200, true), WireWrite(WireWriteHeader(wire, 200), chunk))
  {
    if layer.wroteHeader {
      StackWriteLatched(n, layer, wire, chunk);
    } else {
      var open, w := Layer(200, true), WireWriteHeader(wire, 200);
      StackWriteHeader(n, layer, wire, 200);
      StackInner(n, open, w);
      StackWriteLatched(n - 1, open, w, chunk);
      StackInner(n, open, WireWrite(w, chunk));
    }
  }

  lemma StackStep(n: nat, layer: Layer, wire: Wire, s: Step)
    requires n >= 1
    ensures var one := Apply(Stack(1, layer, wire), s);
            Apply(Stack(n, layer, wire), s) == Stack(n, one.layers[0], one.wire)
  {
    match s
    case DoWriteHeader(code) =>
      StackWriteHeader(1, layer, wire, code);
      StackWriteHeader(n, layer, wire, code);
    case DoWrite(chunk) =>
      StackWrite(1, layer, wire, chunk);
      StackWrite(n, layer, wire, chunk);
    case _ =>
  }

  /**
   A stack of any depth acts as a single recorder: after every trace all its layers agree, and the
   server's writer is where one recorder would have left it.
   */
  lemma {:induction false} StackActsAsOne(n: nat, layer: Layer, wire: Wire, steps: seq<Step>)
    requires n >= 1
    ensures var one := ApplyAll(Stack(1, layer, wire), steps);
            ApplyAll(Stack(n, layer, wire), steps) == Stack(n, one.layers[0], one.wire)
    decreases |steps|
  {
    if steps != [] {
      StackStep(n, layer, wire, steps[0]);
      StackStep(1, layer, wire, steps[0]);
      var one := Apply(Stack(1, layer, wire), steps[0]);
      StackActsAsOne(n, one.layers[0], one.wire, steps[1..]);
    }
  }

  // ---------------------------------------------------------------- what one recorder leaves behind

  /** Status of a writer that a trace finds uncommitted. */
  function StatusFor(steps: seq<Step>): int {
    if FlushesFirst(steps) then 200
    else
      match FirstCode(steps)
      case Some(code) => if IsFinal(code) then code else 200
      case None => 200
  }

  /** One step on one recorder. */
  function One(layer: Layer, wire: Wire, s: Step): (Layer, Wire) {
    match s
    case DoSetHeader(k, v) => (layer, wire.(headers := wire.headers[CanonicalKey(k) := [v]]))
    case DoAddHeader(k, v) =>
      (layer, wire.(headers := wire.headers[CanonicalKey(k) := Values(wire.headers, CanonicalKey(k)) + [v]]))
    case DoDelHeader(k) => (layer, wire.(headers := wire.headers - {CanonicalKey(k)}))
    case DoWriteHeader(code) =>
      if layer.wroteHeader then (layer, wire) else (Layer(code, true), WireWriteHeader(wire, code))
    case DoWrite(chunk) =>
      if layer.wroteHeader then (layer, WireWrite(wire, chunk))
      else (Layer(200, true), WireWrite(WireWriteHeader(wire, 200), chunk))
    case DoFlush => (layer, WireFlush(wire))
  }

  lemma OneStep(layer: Layer, wire: Wire, s: Step)
    ensures Apply(Stack(1, layer, wire), s) == Stack(1, One(layer, wire, s).0, One(layer, wire, s).1)
  {
    match s
    case DoWriteHeader(code) => StackWriteHeader(1, layer, wire, code);
    case DoWrite(chunk) => StackWrite(1, layer, wire, chunk);
    case _ =>
  }

  lemma {:induction false} OneRecorder(layer: Layer, wire: Wire, steps: seq<Step>)
    ensures var r := ApplyAll(Stack(1, layer, wire), steps);
            && r.layers[0] == (if layer.wroteHeader || FirstCode(steps).None? then layer
                               else Layer(FirstCode(steps).value, true))
            && SeenStatus(r.wire) == (if wire.committed.Some? || layer.wroteHeader then SeenStatus(wire)
                                      else StatusFor(steps))
    decreases |steps|
  {
    if steps != [] {
      OneStep(layer, wire, steps[0]);
      var next := One(layer, wire, steps[0]);
      OneRecorder(next.0, next.1, steps[1..]);
    }
  }

  lemma {:induction false} CalledChunksAppend(calls: seq<Call>, c: Call)
    ensures CalledChunks(calls + [c]) == CalledChunks(calls) + if c.DataCall? then [c.chunk] else []
  {
    if calls != [] {
      assert (calls + [c])[1..] == calls[1..] + [c];
      CalledChunksAppend(calls[1..], c);
    }
  }

  /** The one header call of a latched recorder comes before every body call. */
  ghost predicate HeaderThenData(layer: Layer, calls: seq<Call>) {
    if layer.wroteHeader then
      exists i :: 0 <= i < |calls| && calls[i] == HeaderCall(layer.status)
        && forall j :: 0 <= j < |calls| && j != i ==> !calls[j].HeaderCall? && (calls[j].DataCall? ==> i < j)
    else
      forall j :: 0 <= j < |calls| ==> calls[j].FlushCall?
  }

  lemma AppendAfterHeader(layer: Layer, calls: seq<Call>, c: Call)
    requires HeaderThenData(layer, calls)
    requires c.FlushCall? || (c.DataCall? && layer.wroteHeader)
    ensures HeaderThenData(layer, calls + [c])
  {
    if layer.wroteHeader {
      var i :| 0 <= i < |calls| && calls[i] == HeaderCall(layer.status)
        && forall j :: 0 <= j < |calls| && j != i ==> !calls[j].HeaderCall? && (calls[j].DataCall? ==> i < j);
      assert (calls + [c])[i] == HeaderCall(layer.status);
    }
  }

  lemma AppendHeader(calls: seq<Call>, code: int)
    requires HeaderThenData(FRESH, calls)
    ensures HeaderThenData(Layer(code, true), calls + [HeaderCall(code)])
  {
    assert (calls + [HeaderCall(code)])[|calls|] == HeaderCall(code);
  }

  lemma OneStepCalls(layer: Layer, wire: Wire, s: Step)
    requires HeaderThenData(layer, wire.calls)
    ensures var (l, w) := One(layer, wire, s);
            && HeaderThenData(l, w.calls)
            && CalledChunks(w.calls) == CalledChunks(wire.calls) + if s.DoWrite? then [s.chunk] else []
  {
    match s
    case DoWriteHeader(code) =>
      if !layer.wroteHeader {
        AppendHeader(wire.calls, code);
        CalledChunksAppend(wire.calls, HeaderCall(code));
      }
    case DoWrite(chunk) =>
      var before := if layer.wroteHeader then wire.calls else wire.calls + [HeaderCall(200)];
      if !layer.wroteHeader {
        AppendHeader(wire.calls, 200);
        CalledChunksAppend(wire.calls, HeaderCall(200));
      }
      AppendAfterHeader(One(layer, wire, s).0, before, DataCall(chunk));
      CalledChunksAppend(before, DataCall(chunk));
    case DoFlush =>
      AppendAfterHeader(layer, wire.calls, FlushCall);
      CalledChunksAppend(wire.calls, FlushCall);
    case _ =>
  }

  lemma {:induction false} OneRecorderCalls(layer: Layer, wire: Wire, steps: seq<Step>)
    requires HeaderThenData(layer, wire.calls)
    ensures var r := ApplyAll(Stack(1, layer, wire), steps);
            && HeaderThenData(r.layers[0], r.wire.calls)
            && CalledChunks(r.wire.calls) == CalledChunks(wire.calls) + Chunks(steps)
    decreases |steps|
  {
    if steps != [] {
      OneStep(layer, wire, steps[0]);
      OneStepCalls(layer, wire, steps[0]);
      var next := One(layer, wire, steps[0]);
      OneRecorderCalls(next.0, next.1, steps[1..]);
    }
  }

  /**
   Below any number of fresh recorders the server's writer receives at most one WriteHeader, with the
   code all recorders hold, before any body; and it receives the body unchanged and in order.
   */
  lemma StackDeliversInOrder(n: nat, wire: Wire, steps: seq<Step>)
    requires n >= 1 && wire.calls == []
    ensures var r := ApplyAll(Stack(n, FRESH, wire), steps);
            && (forall i :: 0 <= i < n ==> r.layers[i] == r.layers[0])
            && HeaderThenData(r.layers[0], r.wire.calls)
            && CalledChunks(r.wire.calls) == Chunks(steps)
  {
    StackActsAsOne(n, FRESH, wire, steps);
    OneRecorderCalls(FRESH, wire, steps);
  }

  // ---------------------------------------------------------------- the chain that server.New builds

  lemma {:induction false} ApplyAllAppend(w: Writer, a: seq<Step>, b: seq<Step>)
    ensures ApplyAll(w, a + b) == ApplyAll(ApplyAll(w, a), b)
    decreases |a|
  {
    if a == [] {
      assert a + b == b;
    } else {
      assert (a + b)[1..] == a[1..] + b;
      ApplyAllAppend(Apply(w, a[0]), a[1..], b);
    }
  }

  /** The trace together with the panic response that Recover adds, if it adds one. */
  function FullTrace(steps: seq<Step>, ending: Ending, id: string): seq<Step> {
    if IsCaught(ending) && FirstCode(steps).None? then steps + PanicResponse(id) else steps
  }

  lemma {:induction false} FullTraceCodes(steps: seq<Step>, id: string)
    requires FirstCode(steps).None?
    ensures FirstCode(steps + PanicResponse(id)) == Some(500)
    ensures FlushesFirst(steps + PanicResponse(id)) == FlushesFirst(steps)
  {
    var all := steps + PanicResponse(id);
    if steps == [] {
      assert all == PanicResponse(id);
      assert all[1..][0] == DoWriteHeader(500);
    } else {
      assert all[1..] == steps[1..] + PanicResponse(id);
      FullTraceCodes(steps[1..], id);
    }
  }

  /** The status that a trace earns: its first code, or 500 for a caught panic before that, or 200. */
  function EarnedStatus(steps: seq<Step>, ending: Ending): int {
    match FirstCode(steps)
    case Some(code) => code
    case None => if IsCaught(ending) then 500 else 200
  }

  /** The status of a response that the server finishes: it drops the connection unless the chain returns. */
  function FinishedStatus(end: Server, outcome: Ending): Option<int> {
    if outcome.Returned? then Some(SeenStatus(end.writer.wire)) else None
  }

  /** The status that the client sees: an early flush sends 200, and so does a code that cannot be final. */
  function ClientStatus(steps: seq<Step>, ending: Ending): Option<int> {
    var status := EarnedStatus(steps, ending);
    if !Outcome(ending).Returned? then None
    else Some(if FlushesFirst(steps) || !IsFinal(status) then 200 else status)
  }

  /**
   When the log and the client agree: the handler returned or its panic is caught, the code can be sent
   as final, and no other was flushed out before.
   */
  predicate LogMatchesClient(steps: seq<Step>, ending: Ending) {
    var status := EarnedStatus(steps, ending);
    (ending.Returned? || IsCaught(ending)) && IsFinal(status) && (FlushesFirst(steps) ==> status == 200)
  }

  function PanicRecords(steps: seq<Step>, ending: Ending, req: Request, id: string): seq<Record> {
    if !IsCaught(ending) then []
    else
      [PanicCaught(id, Logged(ending.value).value, FirstCode(steps))]
      + if FirstCode(steps).Some? || req.bodyAccepted then [] else [PanicResponseFailed(id)]
  }

  /** What the chain comes to: two recorders over the server's writer run the full trace. */
  lemma ChainRunsFullTrace(lower: Lower, generated: string, steps: seq<Step>, ending: Ending, req: Request)
    ensures var choice := Choose(req.clientId, generated);
            var (end, outcome) := ServeRequest(lower, Chain(generated, App(steps, ending)), req);
            var wire := Wire(map[X_REQUEST_ID := [choice.id]], None, []);
            var one := ApplyAll(Stack(1, FRESH, wire), FullTrace(steps, ending, choice.id));
            && outcome == Outcome(ending)
            && end.writer == Writer([], one.wire)
            && end.records == PanicRecords(steps, ending, req, choice.id)
                 + [AccessRecord(lower, req, Context(choice.id, choice.clientForLog), one.layers[0].status)]
  {
    var choice := Choose(req.clientId, generated);
    var ctx := Context(choice.id, choice.clientForLog);
    var wire := Wire(map[X_REQUEST_ID := [choice.id]], None, []);
    var named := Server(Writer([], wire), []);
    CanonicalNames();
    assert IDLE.(writer := SetHeader(IDLE.writer, X_REQUEST_ID, choice.id)) == named;
    assert Push(Push(named)).writer == Stack(2, FRESH, wire);
    RecoverRuns(lower, steps, ending, req, ctx, Push(named), wire);
    var (inner, ended) := Serve(lower, Recover(App(steps, ending)), Push(named), req, ctx);
    var one := ApplyAll(Stack(1, FRESH, wire), FullTrace(steps, ending, choice.id));
    assert Pop(inner).writer == Writer([], one.wire);
    var logged := inner.(records := inner.records + [AccessRecord(lower, req, ctx, one.layers[0].status)]);
    assert Serve(lower, AccessLog(Recover(App(steps, ending))), named, req, ctx) == (Pop(logged), Outcome(ending));
    assert Serve(lower, Chain(generated, App(steps, ending)), IDLE, req, Context("", "")) == (Pop(logged), Outcome(ending));
  }

  lemma RecoverRuns(lower: Lower, steps: seq<Step>, ending: Ending, req: Request, ctx: Context, s: Server, wire: Wire)
    requires Push(s).writer == Stack(2, FRESH, wire) && s.records == []
    ensures var one := ApplyAll(Stack(1, FRESH, wire), FullTrace(steps, ending, ctx.requestId));
            Serve(lower, Recover(App(steps, ending)), s, req, ctx) ==
              (Server(Stack(1, one.layers[0], one.wire), PanicRecords(steps, ending, req, ctx.requestId)),
               Outcome(ending))
  {
    var full := FullTrace(steps, ending, ctx.requestId);
    var one := ApplyAll(Stack(1, FRESH, wire), full);
    StackActsAsOne(2, FRESH, wire, steps);
    StackActsAsOne(2, FRESH, wire, full);
    OneRecorder(FRESH, wire, steps);
    ApplyAllAppend(Stack(2, FRESH, wire), steps, PanicResponse(ctx.requestId));
    StackInner(2, one.layers[0], one.wire);
    var app := Serve(lower, App(steps, ending), Push(s), req, ctx);
    assert app == (Server(ApplyAll(Stack(2, FRESH, wire), steps), []), ending);
    if ending.Panicked? {
      var (after, outcome) := AfterPanic(app.0, req, ctx, ending.value);
      assert after.writer == Stack(2, one.layers[0], one.wire);
      assert after.records == PanicRecords(steps, ending, req, ctx.requestId);
      assert Serve(lower, Recover(App(steps, ending)), s, req, ctx) == (Pop(after), outcome);
    } else {
      assert app.0.writer == Stack(2, one.layers[0], one.wire);
    }
  }

  /**
   One access record, the last one, with the earned status and its level; and it names the status the
   client saw exactly when `LogMatchesClient` holds.
   */
  ghost predicate LogsOnce(end: Server, outcome: Ending, steps: seq<Step>, ending: Ending) {
    && end.records != []
    && (forall i :: 0 <= i < |end.records| - 1 ==> !end.records[i].Access?)
    && var last := end.records[|end.records| - 1];
       && last.Access?
       && last.status == EarnedStatus(steps, ending)
       && (last.level == Error <==> last.status >= 500)
       && (last.level == Warn <==> 400 <= last.status < 500)
       && (Some(last.status) == FinishedStatus(end, outcome) <==> LogMatchesClient(steps, ending))
  }

  /**
   What an access record says of the request: its method; its path, up to the first '?', and its query with
   the denied values hidden; and the client's identifier in sanitised form exactly if it was rejected.
   */
  ghost predicate Describes(last: Record, lower: Lower, req: Request) {
    && last.Access?
    && last.method_ == req.method_
    && ('?' !in req.escapedPath ==>
          var i := IndexOf(last.path, '?');
          if req.rawQuery == "" then i == -1 && last.path == req.escapedPath
          else
            && i >= 0 && last.path[..i] == req.escapedPath
            && last.path[i + 1..] == RedactQuery(lower, req.rawQuery)
            && ParseQuery(last.path[i + 1..]) == HideParams(lower, ParseQuery(req.rawQuery)))
    && (last.clientRequestId != "" <==> req.clientId != "" && !IsValid(req.clientId))
    && (last.clientRequestId != "" ==>
          last.clientRequestId == Sanitize(req.clientId) && IsSanitized(last.clientRequestId, req.clientId))
  }

  lemma RecordDescribes(lower: Lower, req: Request, generated: string, status: int)
    ensures var choice := Choose(req.clientId, generated);
            Describes(AccessRecord(lower, req, Context(choice.id, choice.clientForLog), status), lower, req)
  {
    hide IsValid, Sanitize, IsSanitized, RedactQuery, ParseQuery, HideParams;
    ClientValueLoggedIffRejected(req.clientId, generated);
    SanitizeSpellsRunes(req.clientId);
    if '?' !in req.escapedPath {
      LoggedPathTakesApart(lower, req.escapedPath, req.rawQuery);
    }
  }

  /**
   The records before the access record: for a caught panic its text, with the status already written if
   there is one, and a second record if the response to it was refused; otherwise none.
   */
  ghost predicate LogsPanic(records: seq<Record>, id: string, steps: seq<Step>, ending: Ending, req: Request) {
    if !IsCaught(ending) then |records| == 1
    else
      && |records| == (if FirstCode(steps).None? && !req.bodyAccepted then 3 else 2)
      && records[0].PanicCaught?
      && records[0].requestId == id
      && Logged(ending.value) == Ok(records[0].value)
      && records[0].alreadyWritten == FirstCode(steps)
      && (|records| == 3 ==> records[1] == PanicResponseFailed(id))
  }

  lemma PanicRecordsLog(steps: seq<Step>, ending: Ending, req: Request, id: string, last: Record)
    requires last.Access?
    ensures LogsPanic(PanicRecords(steps, ending, req, id) + [last], id, steps, ending, req)
    ensures forall r | r in PanicRecords(steps, ending, req, id) :: !r.Access?
  {
  }

  /** The records of the chain, and the status it leaves at the server. */
  lemma ChainRecords(lower: Lower, generated: string, steps: seq<Step>, ending: Ending, req: Request)
    ensures var choice := Choose(req.clientId, generated);
            var ctx := Context(choice.id, choice.clientForLog);
            var (end, outcome) := ServeRequest(lower, Chain(generated, App(steps, ending)), req);
            && outcome == Outcome(ending)
            && end.records == PanicRecords(steps, ending, req, choice.id)
                 + [AccessRecord(lower, req, ctx, EarnedStatus(steps, ending))]
            && FinishedStatus(end, outcome) == ClientStatus(steps, ending)
  {
    var choice := Choose(req.clientId, generated);
    var wire := Wire(map[X_REQUEST_ID := [choice.id]], None, []);
    ChainRunsFullTrace(lower, generated, steps, ending, req);
    OneRecorder(FRESH, wire, FullTrace(steps, ending, choice.id));
    if IsCaught(ending) && FirstCode(steps).None? {
      FullTraceCodes(steps, choice.id);
    }
  }

  /**
   The promise of the order request_id, access_log, recover, handler, for every trace: a panic escapes
   exactly if the text of its value cannot be had; what is logged is right and complete (`LogsOnce`,
   `Describes`, `LogsPanic`); and the client sees `ClientStatus`.
   */
  lemma ChainLogsWhatTheClientSaw(lower: Lower, generated: string, steps: seq<Step>, ending: Ending, req: Request)
    ensures var choice := Choose(req.clientId, generated);
            var (end, outcome) := ServeRequest(lower, Chain(generated, App(steps, ending)), req);
            && outcome == Outcome(ending)
            && (outcome.Panicked? <==> ending.Panicked? && Logged(ending.value).Err?)
            && LogsOnce(end, outcome, steps, ending)
            && Describes(end.records[|end.records| - 1], lower, req)
            && end.records[|end.records| - 1] ==
                 AccessRecord(lower, req, Context(choice.id, choice.clientForLog), EarnedStatus(steps, ending))
            && end.records[|end.records| - 1].requestId == choice.id
            && LogsPanic(end.records, choice.id, steps, ending, req)
            && FinishedStatus(end, outcome) == ClientStatus(steps, ending)
  {
    var choice := Choose(req.clientId, generated);
    var ctx := Context(choice.id, choice.clientForLog);
    var last := AccessRecord(lower, req, ctx, EarnedStatus(steps, ending));
    hide Describes, LogsPanic;
    ChainRecords(lower, generated, steps, ending, req);
    PanicRecordsLog(steps, ending, req, choice.id, last);
    RecordDescribes(lower, req, generated, EarnedStatus(steps, ending));
  }

  /** A panic whose text cannot be had, before anything was sent: it escapes, with 200 in the log. */
  lemma UnprintablePanicEscapes(lower: Lower, generated: string, value: PanicValue, req: Request)
    requires Logged(value).Err?
    ensures var h := Chain(generated, App([], Panicked(value)));
            var (end, outcome) := ServeRequest(lower, h, req);
            && outcome == Panicked(Logged(value).error)
            && LogsAndShows(lower, h, req, 200, None)
            && |end.records| == 1 && end.records[0].level == Info
            && end.writer.wire.calls == [] && end.writer.wire.committed == None
  {
    ChainRunsFullTrace(lower, generated, [], Panicked(value), req);
  }

  /**
   A handler that panics with a *CodedError: the panic leaves the chain exactly for a nil one, and for
   one with a cause that fmt cannot print; any other is logged with its code and message.
   */
  lemma CodedErrorEscapesIff(lower: Lower, generated: string, steps: seq<Step>, e: AppError.CodedError?, req: Request)
    ensures var (end, outcome) := ServeRequest(lower, Chain(generated, App(steps, Panicked(AppError.PanicWith(e)))), req);
            && (outcome.Panicked? <==> e == null || (e.cause.Some? && Formatted(e.cause.value).Err?))
            && end.records != []
            && var last := end.records[|end.records| - 1];
               && last.Access?
               && (FirstCode(steps).None? ==> last.status == if outcome.Panicked? then 200 else 500)
               && (outcome.Returned? ==>
                     end.records[0].PanicCaught? && e.code + ": " + e.message <= end.records[0].value)
  {
    hide Describes;
    ChainLogsWhatTheClientSaw(lower, generated, steps, Panicked(AppError.PanicWith(e)), req);
  }

  /** The status in the log and the one the client sees, if any, for one request. */
  predicate LogsAndShows(lower: Lower, h: Handler, req: Request, logged: int, shown: Option<int>) {
    var (end, outcome) := ServeRequest(lower, h, req);
    && end.records != []
    && end.records[|end.records| - 1].Access?
    && end.records[|end.records| - 1].status == logged
    && FinishedStatus(end, outcome) == shown
  }

  /** A flush, then 404: the log says 404, the client saw 200. */
  lemma FlushThenErrorIsMisreported(lower: Lower, generated: string, req: Request)
    ensures LogsAndShows(lower, Chain(generated, App([DoFlush, DoWriteHeader(404)], Returned)), req, 404, Some(200))
  {
    hide Describes, LogsPanic;
    ChainLogsWhatTheClientSaw(lower, generated, [DoFlush, DoWriteHeader(404)], Returned, req);
  }

  /** A flush, then a panic: the log says 500, the client saw 200. */
  lemma FlushThenPanicIsMisreported(lower: Lower, generated: string, text: string, req: Request)
    ensures LogsAndShows(lower, Chain(generated, App([DoFlush], Panicked(Printable(text)))), req, 500, Some(200))
  {
    hide Describes, LogsPanic;
    ChainLogsWhatTheClientSaw(lower, generated, [DoFlush], Panicked(Printable(text)), req);
  }

  /** An interim 103, then 200: the log says 103. */
  lemma InterimCodeIsMisreported(lower: Lower, generated: string, req: Request)
    ensures var h := Chain(generated, App([DoWriteHeader(103), DoWriteHeader(200)], Returned));
            LogsAndShows(lower, h, req, 103, Some(200))
  {
    hide Describes, LogsPanic;
    ChainLogsWhatTheClientSaw(lower, generated, [DoWriteHeader(103), DoWriteHeader(200)], Returned, req);
  }

  /** An invalid code, whose panic the handler does not catch: the log says 0, the client saw 200, not 500. */
  lemma InvalidCodeIsMisreported(lower: Lower, generated: string, text: string, req: Request)
    ensures LogsAndShows(lower, Chain(generated, App([DoWriteHeader(0)], Panicked(Printable(text)))), req, 0, Some(200))
  {
    hide Describes, LogsPanic;
    ChainLogsWhatTheClientSaw(lower, generated, [DoWriteHeader(0)], Panicked(Printable(text)), req);
  }

  /** With recover outside the access log, a panic before the first write is logged as 200. */
  function ReversedChain(generated: string, mux: Handler): Handler {
    WithRequestId(generated, Recover(AccessLog(mux)))
  }

  /** An access log around a handler: one recorder runs the trace, and the record has its status. */
  lemma AccessLogRuns(lower: Lower, steps: seq<Step>, ending: Ending, req: Request, ctx: Context, s: Server, wire: Wire)
    requires Push(s).writer == Stack(2, FRESH, wire) && s.records == []
    ensures var one := ApplyAll(Stack(1, FRESH, wire), steps);
            Serve(lower, AccessLog(App(steps, ending)), s, req, ctx) ==
              (Server(one, [AccessRecord(lower, req, ctx, one.layers[0].status)]), ending)
  {
    var one := ApplyAll(Stack(1, FRESH, wire), steps);
    StackActsAsOne(2, FRESH, wire, steps);
    StackActsAsOne(1, FRESH, wire, steps);
    StackInner(2, one.layers[0], one.wire);
    var app := Server(Stack(2, one.layers[0], one.wire), []);
    assert Serve(lower, App(steps, ending), Push(s), req, ctx) == (app, ending);
    var record := AccessRecord(lower, req, ctx, one.layers[0].status);
    assert Pop(app.(records := app.records + [record])) == Server(one, [record]);
  }

  /** What the reversed chain comes to: its record is written before the panic response. */
  lemma ReversedChainRuns(lower: Lower, generated: string, steps: seq<Step>, ending: Ending, req: Request)
    ensures var choice := Choose(req.clientId, generated);
            var wire := Wire(map[X_REQUEST_ID := [choice.id]], None, []);
            var before := ApplyAll(Stack(1, FRESH, wire), steps);
            var after := ApplyAll(Stack(1, FRESH, wire), FullTrace(steps, ending, choice.id));
            var (end, outcome) := ServeRequest(lower, ReversedChain(generated, App(steps, ending)), req);
            && end.records != []
            && end.records[0] == AccessRecord(lower, req, Context(choice.id, choice.clientForLog), before.layers[0].status)
            && end.writer.wire == after.wire
            && outcome == Outcome(ending)
  {
    var choice := Choose(req.clientId, generated);
    var ctx := Context(choice.id, choice.clientForLog);
    var wire := Wire(map[X_REQUEST_ID := [choice.id]], None, []);
    var named := Server(Writer([], wire), []);
    CanonicalNames();
    assert IDLE.(writer := SetHeader(IDLE.writer, X_REQUEST_ID, choice.id)) == named;
    assert Push(Push(named)).writer == Stack(2, FRESH, wire);
    AccessLogRuns(lower, steps, ending, req, ctx, Push(named), wire);
    OneRecorder(FRESH, wire, steps);
    var (inner, ended) := Serve(lower, AccessLog(App(steps, ending)), Push(named), req, ctx);
    var outer := if ending.Panicked? then AfterPanic(inner, req, ctx, ending.value).0 else inner;
    assert Serve(lower, Recover(AccessLog(App(steps, ending))), named, req, ctx) == (Pop(outer), Outcome(ending));
    assert ServeRequest(lower, ReversedChain(generated, App(steps, ending)), req) == (Pop(outer), Outcome(ending));
    ApplyAllAppend(Stack(1, FRESH, wire), steps, PanicResponse(choice.id));
  }

  /**
   In the reversed order the client sees the same, but every trace without a code is logged as 200, a
   caught panic too: such a record is right only if the handler had flushed before.
   */
  lemma ReversedChainMisreportsPanics(lower: Lower, generated: string, steps: seq<Step>, ending: Ending, req: Request)
    ensures var (end, outcome) := ServeRequest(lower, ReversedChain(generated, App(steps, ending)), req);
            && outcome == Outcome(ending)
            && end.records != []
            && end.records[0].Access?
            && (FirstCode(steps).None? ==> end.records[0].status == 200)
            && FinishedStatus(end, outcome) == ClientStatus(steps, ending)
            && (Some(end.records[0].status) == FinishedStatus(end, outcome) <==>
                 if IsCaught(ending) && FirstCode(steps).None? then FlushesFirst(steps)
                 else LogMatchesClient(steps, ending))
  {
    var id := Choose(req.clientId, generated).id;
    var wire := Wire(map[X_REQUEST_ID := [id]], None, []);
    ReversedChainRuns(lower, generated, steps, ending, req);
    OneRecorder(FRESH, wire, steps);
    OneRecorder(FRESH, wire, FullTrace(steps, ending, id));
    if IsCaught(ending) && FirstCode(steps).None? {
      FullTraceCodes(steps, id);
    }
  }

  /** The reversed order at a handler that panics at once: logged 200, sent 500. */
  lemma ReversedChainAtAPanic(lower: Lower, generated: string, text: string, req: Request)
    ensures var h := ReversedChain(generated, App([], Panicked(Printable(text))));
            var (end, outcome) := ServeRequest(lower, h, req);
            && end.records != []
            && end.records[0].Access?
            && end.records[0].status == 200
            && FinishedStatus(end, outcome) == Some(500)
  {
    ReversedChainMisreportsPanics(lower, generated, [], Panicked(Printable(text)), req);
  }

  // ---------------------------------------------------------------- what the log reveals of a query

  /**
   Two requests that differ in their query only leave the same records if and only if the queries agree
   on everything but denied values; the client's response is the same in any case.
   */
  lemma LogRevealsExactlyTheVisibleQuery(lower: Lower, generated: string, steps: seq<Step>, ending: Ending,
                                         r1: Request, q2: string)
    ensures var r2 := r1.(rawQuery := q2);
            var (e1, _) := ServeRequest(lower, Chain(generated, App(steps, ending)), r1);
            var (e2, _) := ServeRequest(lower, Chain(generated, App(steps, ending)), r2);
            && e1.writer == e2.writer
            && ((e1.records == e2.records) <==>
                 (Views(lower, Split(r1.rawQuery, '&')) == Views(lower, Split(q2, '&'))))
  {
    var r2 := r1.(rawQuery := q2);
    ChainRunsFullTrace(lower, generated, steps, ending, r1);
    ChainRunsFullTrace(lower, generated, steps, ending, r2);
    LoggedPathHidesExactlyDeniedValues(lower, r1.escapedPath, r1.rawQuery, q2);
    var choice := Choose(r1.clientId, generated);
    var ctx := Context(choice.id, choice.clientForLog);
    var wire := Wire(map[X_REQUEST_ID := [choice.id]], None, []);
    var status := ApplyAll(Stack(1, FRESH, wire), FullTrace(steps, ending, choice.id)).layers[0].status;
    LastRecordDecides(PanicRecords(steps, ending, r1, choice.id),
                      AccessRecord(lower, r1, ctx, status), AccessRecord(lower, r2, ctx, status));
  }

  lemma LastRecordDecides(before: seq<Record>, a: Record, b: Record)
    ensures before + [a] == before + [b] <==> a == b
  {
    assert (before + [a])[|before|] == a && (before + [b])[|before|] == b;
  }

  // ---------------------------------------------------------------- the request id on the response

  function SentHeaders(w: Wire): Headers {
    if w.committed.Some? then w.committed.value.headers else w.headers
  }

  /** The values of a header on the response. */
  function SentValues(w: Wire, key: string): seq<string> {
    Values(SentHeaders(w), key)
  }

  /** The step does not touch the header with the canonical name `key`, in whatever spelling. */
  predicate LeavesHeader(s: Step, key: string) {
    match s
    case DoSetHeader(k, _) => CanonicalKey(k) != key
    case DoAddHeader(k, _) => CanonicalKey(k) != key
    case DoDelHeader(k) => CanonicalKey(k) != key
    case _ => true
  }

  function Edited(s: Step, key: string, values: seq<string>): seq<string> {
    if LeavesHeader(s, key) then values
    else
      match s
      case DoSetHeader(_, v) => [v]
      case DoAddHeader(_, v) => values + [v]
      case _ => []
  }

  /** Whether a step sends the headers, below a recorder that is `latched` or not. */
  predicate Commits(s: Step, latched: bool) {
    match s
    case DoWriteHeader(code) => !latched && IsFinal(code)
    case DoWrite(_) => true
    case DoFlush => true
    case _ => false
  }

  /** The values with which a header goes out: those it has when the trace commits the response. */
  function HeaderSent(steps: seq<Step>, latched: bool, key: string, values: seq<string>): seq<string>
    decreases |steps|
  {
    if steps == [] || Commits(steps[0], latched) then values
    else HeaderSent(steps[1..], latched || steps[0].DoWriteHeader?, key, Edited(steps[0], key, values))
  }

  lemma OneStepSends(layer: Layer, wire: Wire, s: Step, key: string)
    ensures var (l, w) := One(layer, wire, s);
            && (w.committed.Some? <==> wire.committed.Some? || Commits(s, layer.wroteHeader))
            && (w.committed.Some? ==> SentValues(w, key) == SentValues(wire, key))
            && (w.committed.None? ==>
                 && l.wroteHeader == (layer.wroteHeader || s.DoWriteHeader?)
                 && SentValues(w, key) == Edited(s, key, SentValues(wire, key)))
  {
  }

  lemma {:induction false} OneRecorderSends(layer: Layer, wire: Wire, steps: seq<Step>, key: string)
    ensures SentValues(ApplyAll(Stack(1, layer, wire), steps).wire, key) ==
            if wire.committed.Some? then SentValues(wire, key)
            else HeaderSent(steps, layer.wroteHeader, key, SentValues(wire, key))
    decreases |steps|
  {
    if steps != [] {
      OneStep(layer, wire, steps[0]);
      OneStepSends(layer, wire, steps[0], key);
      var next := One(layer, wire, steps[0]);
      OneRecorderSends(next.0, next.1, steps[1..], key);
    }
  }

  /** Later steps that leave a header alone do not change how it goes out. */
  lemma {:induction false} LeftAloneLater(steps: seq<Step>, more: seq<Step>, latched: bool, key: string,
                                          values: seq<string>)
    requires forall i :: 0 <= i < |more| ==> LeavesHeader(more[i], key)
    ensures HeaderSent(steps + more, latched, key, values) == HeaderSent(steps, latched, key, values)
    decreases |steps| + |more|
  {
    if steps != [] {
      assert (steps + more)[1..] == steps[1..] + more && (steps + more)[0] == steps[0];
      hide LeavesHeader, Edited, Commits;
      LeftAloneLater(steps[1..], more, latched || steps[0].DoWriteHeader?, key, Edited(steps[0], key, values));
    } else if more != [] {
      assert steps + more == more;
      LeftAloneLater([], more[1..], latched || more[0].DoWriteHeader?, key, values);
      assert [] + more[1..] == more[1..];
    }
  }

  lemma HeaderLeftAlone(steps: seq<Step>, latched: bool, key: string, values: seq<string>)
    requires forall i :: 0 <= i < |steps| ==> LeavesHeader(steps[i], key)
    ensures HeaderSent(steps, latched, key, values) == values
  {
    LeftAloneLater([], steps, latched, key, values);
    assert [] + steps == steps;
  }

  lemma PanicResponseLeavesId(id: string)
    ensures forall i :: 0 <= i < 3 ==> LeavesHeader(PanicResponse(id)[i], X_REQUEST_ID)
  {
    CanonicalNames();
  }

  lemma FullTraceSends(wire: Wire, steps: seq<Step>, ending: Ending, id: string)
    requires wire == Wire(map[X_REQUEST_ID := [id]], None, [])
    ensures SentValues(ApplyAll(Stack(1, FRESH, wire), FullTrace(steps, ending, id)).wire, X_REQUEST_ID) ==
            HeaderSent(steps, false, X_REQUEST_ID, [id])
  {
    OneRecorderSends(FRESH, wire, FullTrace(steps, ending, id), X_REQUEST_ID);
    PanicResponseLeavesId(id);
    LeftAloneLater(steps, PanicResponse(id), false, X_REQUEST_ID, [id]);
  }

  predicate LeavesRequestId(steps: seq<Step>) {
    forall i :: 0 <= i < |steps| ==> LeavesHeader(steps[i], X_REQUEST_ID)
  }

  /**
   Whatever the status and however the handler ends, the response carries the request id of the access
   record exactly if the handler's own edits of that header, before the response is committed, leave it
   with that value; in particular if the handler does not touch it.
   */
  lemma ResponseCarriesLoggedRequestId(lower: Lower, generated: string, steps: seq<Step>, ending: Ending, req: Request)
    ensures var id := Choose(req.clientId, generated).id;
            var (end, _) := ServeRequest(lower, Chain(generated, App(steps, ending)), req);
            && end.records != []
            && end.records[|end.records| - 1].Access?
            && end.records[|end.records| - 1].requestId == id
            && SentValues(end.writer.wire, X_REQUEST_ID) == HeaderSent(steps, false, X_REQUEST_ID, [id])
            && (LeavesRequestId(steps) ==> SentValues(end.writer.wire, X_REQUEST_ID) == [id])
  {
    var id := Choose(req.clientId, generated).id;
    ChainRunsFullTrace(lower, generated, steps, ending, req);
    FullTraceSends(Wire(map[X_REQUEST_ID := [id]], None, []), steps, ending, id);
    if LeavesRequestId(steps) {
      HeaderLeftAlone(steps, false, X_REQUEST_ID, [id]);
    }
  }

  /** A handler that sets the header under another spelling replaces the id all the same. */
  lemma OtherSpellingReplacesRequestId(lower: Lower, generated: string, value: string, req: Request)
    ensures var (end, _) :=
              ServeRequest(lower, Chain(generated, App([DoSetHeader("x-request-id", value)], Returned)), req);
            SentValues(end.writer.wire, X_REQUEST_ID) == [value]
  {
    var s := DoSetHeader("x-request-id", value);
    LowerCaseSpelling();
    ResponseCarriesLoggedRequestId(lower, generated, [s], Returned, req);
    assert [s][1..] == [];
  }

  lemma LowerCaseSpelling()
    ensures CanonicalKey("x-request-id") == X_REQUEST_ID
  {
    assert IsToken("x-request-id");
  }

  // ---------------------------------------------------------------- what a panic response contains

  /** The panic response adds a piece of body. */
  lemma PanicResponseShows(wire: Wire, steps: seq<Step>, id: string)
    requires wire.calls == []
    ensures ApplyAll(Stack(1, FRESH, wire), steps + PanicResponse(id)).wire != ApplyAll(Stack(1, FRESH, wire), steps).wire
  {
    OneRecorderCalls(FRESH, wire, steps);
    OneRecorder(FRESH, wire, steps);
    var r, p := ApplyAll(Stack(1, FRESH, wire), steps), PanicResponse(id);
    assert r == Stack(1, r.layers[0], r.wire);
    ApplyAllAppend(Stack(1, FRESH, wire), steps, p);
    OneRecorderCalls(r.layers[0], r.wire, p);
    assert Chunks(p) == Chunks(p[1..]) == Chunks(p[1..][1..]) && p[1..][1..][0] == p[2];
    assert |Chunks(p)| >= 1;
  }

  /**
   What the client receives depends on a panic value only in whether its text can be had, and on that
   only if nothing was written before.
   */
  lemma PanicValueStaysInside(lower: Lower, generated: string, steps: seq<Step>, v1: PanicValue, v2: PanicValue,
                              req: Request)
    ensures ServeRequest(lower, Chain(generated, App(steps, Panicked(v1))), req).0.writer ==
            ServeRequest(lower, Chain(generated, App(steps, Panicked(v2))), req).0.writer <==>
            Logged(v1).Ok? == Logged(v2).Ok? || FirstCode(steps).Some?
  {
    var id := Choose(req.clientId, generated).id;
    ChainRunsFullTrace(lower, generated, steps, Panicked(v1), req);
    ChainRunsFullTrace(lower, generated, steps, Panicked(v2), req);
    PanicResponseShows(Wire(map[X_REQUEST_ID := [id]], None, []), steps, id);
  }

  predicate OnlyHeaders(steps: seq<Step>) {
    forall i :: 0 <= i < |steps| ==> steps[i].DoSetHeader? || steps[i].DoAddHeader? || steps[i].DoDelHeader?
  }

  lemma {:induction false} HeadersOnlyTrace(wire: Wire, steps: seq<Step>)
    requires OnlyHeaders(steps)
    ensures exists headers :: ApplyAll(Stack(1, FRESH, wire), steps) == Stack(1, FRESH, wire.(headers := headers))
    ensures FirstCode(steps).None? && !FlushesFirst(steps)
    decreases |steps|
  {
    if steps == [] {
      assert wire == wire.(headers := wire.headers);
    } else {
      var (_, w) := One(FRESH, wire, steps[0]);
      OneStep(FRESH, wire, steps[0]);
      HeadersOnlyTrace(w, steps[1..]);
      var headers :| ApplyAll(Stack(1, FRESH, w), steps[1..]) == Stack(1, FRESH, w.(headers := headers));
      assert w.(headers := headers) == wire.(headers := headers);
    }
  }

  lemma HeadersLeft(steps: seq<Step>, id: string, headers: Headers)
    requires var wire := Wire(map[X_REQUEST_ID := [id]], None, []);
             ApplyAll(Stack(1, FRESH, wire), steps) == Stack(1, FRESH, wire.(headers := headers))
    ensures forall key :: Values(headers, key) == HeaderSent(steps, false, key, if key == X_REQUEST_ID then [id] else [])
  {
    var wire := Wire(map[X_REQUEST_ID := [id]], None, []);
    forall key
      ensures Values(headers, key) == HeaderSent(steps, false, key, if key == X_REQUEST_ID then [id] else [])
    {
      OneRecorderSends(FRESH, wire, steps, key);
    }
  }

  lemma PanicResponseOnFreshRecorder(wire: Wire, id: string)
    requires wire.calls == [] && wire.committed.None?
    ensures var headers := wire.headers[CONTENT_TYPE := [JSON_UTF8]];
            ApplyAll(Stack(1, FRESH, wire), PanicResponse(id)) ==
              Stack(1, Layer(500, true),
                    Wire(headers, Some(Commit(500, headers)),
                         [HeaderCall(500), DataCall(ErrorJson(INTERNAL_ERROR, INTERNAL_ERROR_MESSAGE, id))]))
  {
    CanonicalNames();
    var p := PanicResponse(id);
    var w1 := One(FRESH, wire, p[0]).1;
    var (l2, w2) := One(FRESH, w1, p[1]);
    OneStep(FRESH, wire, p[0]);
    OneStep(FRESH, w1, p[1]);
    OneStep(l2, w2, p[2]);
    assert p[1..][1..] == [p[2]] && [p[2]][1..] == [];
    var end := Stack(1, One(l2, w2, p[2]).0, One(l2, w2, p[2]).1);
    assert ApplyAll(Stack(1, l2, w2), [p[2]]) == ApplyAll(end, []) == end;
    assert ApplyAll(Stack(1, FRESH, w1), p[1..]) == end;
  }

  /** The calls and headers of the fixed response; all headers but the content type are the handler's. */
  ghost predicate IsFixedResponse(sent: Wire, steps: seq<Step>, id: string) {
    && sent.calls == [HeaderCall(500), DataCall(ErrorJson("INTERNAL_ERROR", INTERNAL_ERROR_MESSAGE, id))]
    && sent.committed.Some?
    && sent.committed.value.status == 500
    && SentValues(sent, "Content-Type") == ["application/json; charset=utf-8"]
    && forall key | key != CONTENT_TYPE ::
         SentValues(sent, key) == HeaderSent(steps, false, key, if key == X_REQUEST_ID then [id] else [])
  }

  lemma OnlyHeadersThenPanicResponse(steps: seq<Step>, id: string)
    requires OnlyHeaders(steps)
    ensures var wire := Wire(map[X_REQUEST_ID := [id]], None, []);
            && FirstCode(steps).None?
            && IsFixedResponse(ApplyAll(Stack(1, FRESH, wire), steps + PanicResponse(id)).wire, steps, id)
  {
    var wire := Wire(map[X_REQUEST_ID := [id]], None, []);
    HeadersOnlyTrace(wire, steps);
    var headers :| ApplyAll(Stack(1, FRESH, wire), steps) == Stack(1, FRESH, wire.(headers := headers));
    ApplyAllAppend(Stack(1, FRESH, wire), steps, PanicResponse(id));
    PanicResponseOnFreshRecorder(wire.(headers := headers), id);
    HeadersLeft(steps, id, headers);
    WithContentType(steps, id, headers);
  }

  lemma WithContentType(steps: seq<Step>, id: string, headers: Headers)
    requires forall key :: Values(headers, key) == HeaderSent(steps, false, key, if key == X_REQUEST_ID then [id] else [])
    ensures var sent := headers[CONTENT_TYPE := [JSON_UTF8]];
            IsFixedResponse(Wire(sent, Some(Commit(500, sent)),
                                 [HeaderCall(500), DataCall(ErrorJson(INTERNAL_ERROR, INTERNAL_ERROR_MESSAGE, id))]),
                            steps, id)
  {
    var sent := headers[CONTENT_TYPE := [JSON_UTF8]];
    forall key | key != CONTENT_TYPE ensures Values(sent, key) == Values(headers, key) {
    }
  }

  /**
   A panic whose text can be had, before anything was sent: a 500 in JSON with the fixed code, message and request id
   only is handed to the server, which refuses the body if the handler left a Content-Length too small
   for it.
   */
  lemma PanicBeforeWritingSendsFixedResponse(lower: Lower, generated: string, steps: seq<Step>, value: PanicValue,
                                             req: Request)
    requires OnlyHeaders(steps) && Logged(value).Ok?
    ensures var id := Choose(req.clientId, generated).id;
            var h := Chain(generated, App(steps, Panicked(value)));
            IsFixedResponse(ServeRequest(lower, h, req).0.writer.wire, steps, id)
  {
    OnlyHeadersThenPanicResponse(steps, Choose(req.clientId, generated).id);
    ChainRunsFullTrace(lower, generated, steps, Panicked(value), req);
  }

  // ---------------------------------------------------------------- any composition of the middlewares

  function AccessLogs(h: Handler): nat {
    match h
    case App(_, _) => 0
    case AccessLog(next) => 1 + AccessLogs(next)
    case Recover(next) => AccessLogs(next)
    case WithRequestId(_, next) => AccessLogs(next)
  }

  function AccessRecords(records: seq<Record>): nat {
    if records == [] then 0 else (if records[0].Access? then 1 else 0) + AccessRecords(records[1..])
  }

  lemma {:induction false} AccessRecordsAppend(a: seq<Record>, b: seq<Record>)
    ensures AccessRecords(a + b) == AccessRecords(a) + AccessRecords(b)
  {
    if a == [] {
      assert a + b == b;
    } else {
      assert (a + b)[1..] == a[1..] + b;
      AccessRecordsAppend(a[1..], b);
    }
  }

  /** How a composition ends: each Recover takes one panic, and a value without a text raises the next. */
  function EndOf(h: Handler): Ending {
    match h
    case App(_, ending) => ending
    case Recover(next) => Outcome(EndOf(next))
    case AccessLog(next) => EndOf(next)
    case WithRequestId(_, next) => EndOf(next)
  }

  /** In any order and nesting each access log writes one record, also while a panic passes it. */
  lemma {:induction false} EveryAccessLogWritesOnce(lower: Lower, h: Handler, s: Server, req: Request, ctx: Context)
    ensures var (end, ending) := Serve(lower, h, s, req, ctx);
            && AccessRecords(end.records) == AccessRecords(s.records) + AccessLogs(h)
            && ending == EndOf(h)
    decreases h
  {
    match h
    case App(_, _) =>
    case AccessLog(next) =>
      EveryAccessLogWritesOnce(lower, next, Push(s), req, ctx);
      var (inner, _) := Serve(lower, next, Push(s), req, ctx);
      AccessRecordsAppend(inner.records, [AccessRecord(lower, req, ctx, inner.writer.layers[0].status)]);
    case Recover(next) =>
      EveryAccessLogWritesOnce(lower, next, Push(s), req, ctx);
      var (inner, ending) := Serve(lower, next, Push(s), req, ctx);
      if ending.Panicked? {
        PanicAddsNoAccessRecord(inner, req, ctx, ending.value);
      }
    case WithRequestId(generated, next) =>
      var choice := Choose(req.clientId, generated);
      var named := s.(writer := SetHeader(s.writer, X_REQUEST_ID, choice.id));
      EveryAccessLogWritesOnce(lower, next, named, req, Context(choice.id, choice.clientForLog));
  }

  lemma PanicAddsNoAccessRecord(s: Server, req: Request, ctx: Context, value: PanicValue)
    requires s.writer.layers != []
    ensures AccessRecords(AfterPanic(s, req, ctx, value).0.records) == AccessRecords(s.records)
  {
    var rec := s.writer.layers[0];
    var text := if Logged(value).Ok? then Logged(value).value else "";
    var first := [PanicCaught(ctx.requestId, text, if rec.wroteHeader then Some(rec.status) else None)];
    AccessRecordsAppend(s.records, first);
    AccessRecordsAppend(s.records + first, [PanicResponseFailed(ctx.requestId)]);
    assert s.records + first + [] == s.records + first;
  }
}
