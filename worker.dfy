/**
 * The request handling of `JSHandler`: the worker side (`run`,
 * `_handle_streaming`, `_jsexec`'s table lookup) and the coordinator side
 * (`_transaction`, `transcation`).
 *
 * The script engine is a parameter: `Engine` is the evaluation of
 * `jscb(logger, req, jsargs)` in the worker's context followed by the
 * conversion of its result to a dictionary, either of which may raise.
 * Pipes, pickling and `select.poll` become the sequences of deliveries and
 * poll events the loops consume.
 */
module Worker {
  import opened PyValues
  import opened Callbacks

  /** What the worker does to its script context. */
  datatype ContextOp = Begin | Enter | Leave

  /** The script engine: the callback's result for a table row and a
      request, or the exception it raised. */
  type Engine = (Entry, PyDict) -> Result<PyDict>

  /** What one iteration of the worker loop does: the context operations
      in order and the replies written to the response pipe in order. */
  datatype Served = Served(ops: seq<ContextOp>, sent: seq<Value>)

  /** `_handle_streaming(req)`'s effect: context operations, replies sent
      from inside it, and its return value (None for a control frame) or
      the exception it let through. */
  datatype StreamStep = StreamStep(ops: seq<ContextOp>, sent: seq<Value>, ret: Result<Value>)

  /** The reply `{'success': True}` to a control frame. */
  const SuccessReply: Value := Dict(map["success" := Bool(true)])

  /** The reply `{'exc': traceback.format_exc()}` for a caught exception. */
  function ExcReply(f: Fault): (v: Value)
    ensures v.Dict? && "exc" in v.entries && v.entries["exc"] == Str(TraceText(f))
  {
    Dict(map["exc" := Str(TraceText(f))])
  }

  /** `req.get(flag, False)` tested for truth. */
  predicate Flag(req: PyDict, flag: string) {
    Truthy(Get(req, flag, Bool(false)))
  }

  /** `_jsexec(req)`: the row `JsCbLookup[req['ident']]` run by the engine.
      A missing identifier raises KeyError, a bad one the lookup's error. */
  function Exec(table: seq<Entry>, engine: Engine, req: PyDict): (r: Result<PyDict>)
    ensures "ident" !in req ==> r == Raise(Fault(KeyError, Str("ident")))
    ensures "ident" in req && Lookup(table, req["ident"]).Raise? ==>
              r == Raise(Lookup(table, req["ident"]).fault)
    ensures r.Ok? ==> "ident" in req && Lookup(table, req["ident"]).Ok?
    ensures "ident" in req && Lookup(table, req["ident"]).Ok? ==>
              r == engine(Lookup(table, req["ident"]).value, req)
  {
    if "ident" !in req then Raise(Fault(KeyError, Str("ident")))
    else match Lookup(table, req["ident"])
      case Raise(f) => Raise(f)
      case Ok(entry) => engine(entry, req)
  }

  /** `_handle_streaming(req)`: a start frame begins a context and an end
      frame leaves it, each answered with `{'success': True}` from inside;
      anything else is executed and its result returned. */
  function HandleStreaming(table: seq<Entry>, engine: Engine, req: PyDict): (r: StreamStep)
    ensures Flag(req, "start-streaming") ==> r == StreamStep([Begin], [SuccessReply], Ok(Null))
    ensures !Flag(req, "start-streaming") && Flag(req, "end-streaming") ==>
              r == StreamStep([Leave], [SuccessReply], Ok(Null))
    ensures !Flag(req, "start-streaming") && !Flag(req, "end-streaming") ==>
              r.ops == [] && r.sent == [] && (r.ret.Ok? <==> Exec(table, engine, req).Ok?)
    ensures r.ret.Ok? && r.ret.value != Null ==> r.ret.value == Dict(Exec(table, engine, req).value)
  {
    if Flag(req, "start-streaming") then StreamStep([Begin], [SuccessReply], Ok(Null))
    else if Flag(req, "end-streaming") then StreamStep([Leave], [SuccessReply], Ok(Null))
    else match Exec(table, engine, req)
      case Ok(d) => StreamStep([], [], Ok(Dict(d)))
      case Raise(f) => StreamStep([], [], Raise(f))
  }

  /** The body of `run`'s loop for one request read from the pipe: a
      streaming request goes to `_handle_streaming`; any other is executed
      between `enter` and `leave`; a caught exception becomes
      `{'exc': ...}`; finally the result is sent, whatever it is. */
  function Serve(table: seq<Entry>, engine: Engine, req: PyDict): (r: Served)
    ensures |r.sent| == if IsControl(req) then 2 else 1
  {
    if Flag(req, "streaming") then
      var hs := HandleStreaming(table, engine, req);
      var res := match hs.ret
        case Ok(v) => v
        case Raise(f) => ExcReply(f);
      Served(hs.ops, hs.sent + [res])
    else
      match Exec(table, engine, req)
      case Ok(d) => Served([Enter, Leave], [Dict(d)])
      case Raise(f) => Served([Enter], [ExcReply(f)])
  }

  /** A frame that `_handle_streaming` answers itself. */
  predicate IsControl(req: PyDict) {
    Flag(req, "streaming") && (Flag(req, "start-streaming") || Flag(req, "end-streaming"))
  }

  /** A plain request gets exactly one reply: the callback's dictionary
      when it returned, with the context entered and left, or the trace
      under 'exc' when it raised, with the context entered and never left. */
  lemma ServePlain(table: seq<Entry>, engine: Engine, req: PyDict)
    requires !Flag(req, "streaming")
    ensures var r := Serve(table, engine, req);
      && |r.sent| == 1
      && (Exec(table, engine, req).Ok? ==> r.ops == [Enter, Leave] && r.sent[0] == Dict(Exec(table, engine, req).value))
      && (Exec(table, engine, req).Raise? ==>
            r.ops == [Enter] && r.sent[0] == ExcReply(Exec(table, engine, req).fault))
  {
  }

  /** A streaming data request gets exactly one reply, the callback's
      dictionary or the trace under 'exc', and touches no context; a
      control frame begins or leaves the context and gets two replies,
      `{'success': True}` and then None. */
  lemma ServeStreaming(table: seq<Entry>, engine: Engine, req: PyDict)
    requires Flag(req, "streaming")
    ensures var r := Serve(table, engine, req);
      && (IsControl(req) ==> r.sent == [SuccessReply, Null])
      && (Flag(req, "start-streaming") ==> r.ops == [Begin])
      && (!Flag(req, "start-streaming") && Flag(req, "end-streaming") ==> r.ops == [Leave])
      && (!IsControl(req) ==> r.ops == [] && |r.sent| == 1)
      && (!IsControl(req) && Exec(table, engine, req).Ok? ==> r.sent[0] == Dict(Exec(table, engine, req).value))
      && (!IsControl(req) && Exec(table, engine, req).Raise? ==> r.sent[0] == ExcReply(Exec(table, engine, req).fault))
  {
  }

  /** The loop body as evidently intended: a control frame is answered once,
      with `{'success': True}`. */
  function ServeFixed(table: seq<Entry>, engine: Engine, req: PyDict): (r: Served)
    ensures |r.sent| == 1
    ensures IsControl(req) ==> r.sent == [SuccessReply]
    ensures !IsControl(req) ==> r == Serve(table, engine, req)
  {
    if IsControl(req) then Served(Serve(table, engine, req).ops, [SuccessReply])
    else Serve(table, engine, req)
  }

  /** The concatenated effect of serving requests in order. */
  function ServeAll(table: seq<Entry>, engine: Engine, reqs: seq<PyDict>): Served
  {
    Replay(reqs, req => Serve(table, engine, req))
  }

  /** The concatenated effect of serving requests in order, one at a time. */
  function Replay(reqs: seq<PyDict>, serve: PyDict -> Served): Served
    decreases |reqs|
  {
    if reqs == [] then Served([], [])
    else
      var init := Replay(reqs[..|reqs| - 1], serve);
      var last := serve(reqs[|reqs| - 1]);
      Served(init.ops + last.ops, init.sent + last.sent)
  }

  /** The number of control frames among the requests. */
  function ControlCount(reqs: seq<PyDict>): (n: nat)
    ensures n <= |reqs|
    decreases |reqs|
  {
    if reqs == [] then 0
    else ControlCount(reqs[..|reqs| - 1]) + (if IsControl(reqs[|reqs| - 1]) then 1 else 0)
  }

  /** Over a session, the worker writes one reply per request plus one
      stray None per control frame, so replies and requests drift apart as
      soon as a stream starts. */
  lemma {:induction false} ServeAllReplies(table: seq<Entry>, engine: Engine, reqs: seq<PyDict>)
    ensures |ServeAll(table, engine, reqs).sent| == |reqs| + ControlCount(reqs)
    decreases |reqs|
  {
    if reqs != [] {
      ServeAllReplies(table, engine, reqs[..|reqs| - 1]);
      var req := reqs[|reqs| - 1];
      if Flag(req, "streaming") {
        ServeStreaming(table, engine, req);
      } else {
        ServePlain(table, engine, req);
      }
    }
  }

  /** The same session served by the corrected loop body. */
  function ServeAllFixed(table: seq<Entry>, engine: Engine, reqs: seq<PyDict>): Served
    decreases |reqs|
  {
    if reqs == [] then Served([], [])
    else
      var init := ServeAllFixed(table, engine, reqs[..|reqs| - 1]);
      var last := ServeFixed(table, engine, reqs[|reqs| - 1]);
      Served(init.ops + last.ops, init.sent + last.sent)
  }

  /** With the corrected loop body every request gets exactly one reply. */
  lemma {:induction false} ServeAllFixedReplies(table: seq<Entry>, engine: Engine, reqs: seq<PyDict>)
    ensures |ServeAllFixed(table, engine, reqs).sent| == |reqs|
    decreases |reqs|
  {
    if reqs != [] {
      ServeAllFixedReplies(table, engine, reqs[..|reqs| - 1]);
    }
  }

  /** What `select.poll` reports on the request pipe, and the request the
      worker then reads. POLLIN is bit 0 of the event mask. */
  datatype Delivery = Delivery(mask: nat, req: PyDict)

  predicate Readable(mask: nat) {
    mask % 2 == 1
  }

  /** How many deliveries `run` serves: it returns at the first event
      without POLLIN. */
  function ServedCount(ds: seq<Delivery>): (n: nat)
    ensures n <= |ds|
    ensures forall i :: 0 <= i < n ==> Readable(ds[i].mask)
    ensures n < |ds| ==> !Readable(ds[n].mask)
    decreases |ds|
  {
    if ds == [] || !Readable(ds[0].mask) then 0 else 1 + ServedCount(ds[1..])
  }

  /** The requests of a run of deliveries. */
  function Requests(ds: seq<Delivery>): (reqs: seq<PyDict>)
    ensures |reqs| == |ds| && forall i :: 0 <= i < |ds| ==> reqs[i] == ds[i].req
  {
    seq(|ds|, i requires 0 <= i < |ds| => ds[i].req)
  }

  /** `run()`: serve deliveries until the request pipe reports anything
      but POLLIN. A run whose deliveries are all readable ends where the
      input ends; the source would then wait on `poll` forever. */
  method Run(table: seq<Entry>, engine: Engine, ds: seq<Delivery>) returns (ops: seq<ContextOp>, sent: seq<Value>, served: nat)
    ensures served == ServedCount(ds)
    ensures Served(ops, sent) == ServeAll(table, engine, Requests(ds[..served]))
  {
    var reqs := Requests(ds);
    ops, sent, served := ServeLoop(ds, reqs, req => Serve(table, engine, req));
    RequestsPrefix(ds, served);
  }

  /** `run`'s `while True` loop with the body `serve` for each request
      read: it serves every delivery up to the first event without POLLIN,
      appending each request's context operations and replies. */
  method ServeLoop(ds: seq<Delivery>, reqs: seq<PyDict>, serve: PyDict -> Served) returns (ops: seq<ContextOp>, sent: seq<Value>, served: nat)
    requires reqs == Requests(ds)
    ensures served == ServedCount(ds)
    ensures Served(ops, sent) == Replay(reqs[..served], serve)
  {
    ops, sent, served := [], [], 0;
    while served < |ds| && Readable(ds[served].mask)
      invariant served <= |ds|
      invariant forall i :: 0 <= i < served ==> Readable(ds[i].mask)
      invariant Served(ops, sent) == Replay(reqs[..served], serve)
    {
      var r := serve(reqs[served]);
      assert reqs[..served + 1][..served] == reqs[..served];
      ops, sent := ops + r.ops, sent + r.sent;
      served := served + 1;
    }
    ServedCountFirstStop(ds, served);
  }

  /** Reading the requests of a prefix of the deliveries. */
  lemma RequestsPrefix(ds: seq<Delivery>, n: nat)
    requires n <= |ds|
    ensures Requests(ds)[..n] == Requests(ds[..n])
  {
  }

  /** Serving one more delivery extends the effect of the ones before. */
  lemma ServeAllSnoc(table: seq<Entry>, engine: Engine, ds: seq<Delivery>, n: nat)
    requires n < |ds|
    ensures var before := ServeAll(table, engine, Requests(ds[..n]));
      var r := Serve(table, engine, ds[n].req);
      ServeAll(table, engine, Requests(ds[..n + 1])) == Served(before.ops + r.ops, before.sent + r.sent)
  {
    var reqs := Requests(ds[..n + 1]);
    assert reqs[..n] == Requests(ds[..n]);
    assert reqs[n] == ds[n].req;
  }

  /** The served count is the position of the first event without
      POLLIN, or the whole input. */
  lemma {:induction false} ServedCountFirstStop(ds: seq<Delivery>, n: nat)
    requires n <= |ds|
    requires forall i :: 0 <= i < n ==> Readable(ds[i].mask)
    requires n < |ds| ==> !Readable(ds[n].mask)
    ensures ServedCount(ds) == n
    decreases n
  {
    if n > 0 {
      ServedCountFirstStop(ds[1..], n - 1);
    }
  }

  /** A poll event seen by the coordinator while it waits for a reply:
      data on the route's log pipe, or on the worker's response pipe. */
  datatype PollEvent = LogEvent(mask: nat, chunk: string) | ResponseEvent(mask: nat, reply: Value)

  /** A readable log event, which `_transaction` forwards and then keeps
      polling. */
  predicate Forwarded(e: PollEvent) {
    e.LogEvent? && Readable(e.mask)
  }

  /** `logger.read()[:-1]`: the chunk without its final newline. */
  function LogLine(chunk: string): (line: string)
    ensures chunk != [] ==> chunk == line + [chunk[|chunk| - 1]]
    ensures chunk == [] ==> line == []
  {
    if chunk == [] then [] else chunk[..|chunk| - 1]
  }

  /** The value `_transaction` returns on an event that ends it: the reply
      of a readable response event; for anything else
      `{'exc': '<pipe> error event=<mask in hex>'}`. */
  function Answer(e: PollEvent): (v: Value)
    ensures e.ResponseEvent? && Readable(e.mask) ==> v == e.reply
    ensures !e.ResponseEvent? || !Readable(e.mask) ==> v.Dict? && "exc" in v.entries
  {
    if e.ResponseEvent? && Readable(e.mask) then e.reply
    else
      var name := if e.LogEvent? then "logger" else "response_pipe";
      Dict(map["exc" := Str(name + " error event=" + HexDigits(e.mask))])
  }

  /** What `_transaction` logged and returned; None when every event was a
      log event, so it is still polling. */
  datatype TxOutcome = TxOutcome(logged: seq<string>, result: Option<Value>)

  /** `_transaction(logger, req)` after the request has been sent. */
  function Transaction(events: seq<PollEvent>): (r: TxOutcome)
    ensures r.result.None? <==> forall i :: 0 <= i < |events| ==> Forwarded(events[i])
    ensures |r.logged| <= |events|
    ensures r.result.None? ==> |r.logged| == |events|
    decreases |events|
  {
    if events == [] then TxOutcome([], None)
    else if Forwarded(events[0]) then
      var rest := Transaction(events[1..]);
      TxOutcome([LogLine(events[0].chunk)] + rest.logged, rest.result)
    else TxOutcome([], Some(Answer(events[0])))
  }

  /** The data a forwarded log event carries. */
  function Chunk(e: PollEvent): string
    requires Forwarded(e)
  {
    e.chunk
  }

  /** The log lines of a run of log events. */
  function LogLines(events: seq<PollEvent>): (lines: seq<string>)
    requires forall i :: 0 <= i < |events| ==> Forwarded(events[i])
    ensures |lines| == |events|
    ensures forall i :: 0 <= i < |events| ==> lines[i] == LogLine(Chunk(events[i]))
  {
    seq(|events|, i requires 0 <= i < |events| => LogLine(Chunk(events[i])))
  }

  /** The position of the first event that ends `_transaction`, or the
      length of the input when there is none. */
  function StopAt(events: seq<PollEvent>): (k: nat)
    ensures k <= |events|
    ensures forall i :: 0 <= i < k ==> Forwarded(events[i])
    ensures k < |events| ==> !Forwarded(events[k])
    decreases |events|
  {
    if events == [] || !Forwarded(events[0]) then 0 else 1 + StopAt(events[1..])
  }

  /** `_transaction` forwards every readable log event up to the first event
      of any other kind, in order, and answers with that event; it keeps
      polling exactly when there is no such event. */
  lemma {:induction false} TransactionStops(events: seq<PollEvent>)
    ensures var k := StopAt(events);
      && Transaction(events).logged == LogLines(events[..k])
      && (k < |events| ==> Transaction(events).result == Some(Answer(events[k])))
      && (k == |events| ==> Transaction(events).result.None?)
    decreases |events|
  {
    if events != [] && Forwarded(events[0]) {
      var rest := events[1..];
      TransactionStops(rest);
      var k := StopAt(rest);
      LogLinesCons(events, k);
      assert rest[k..] == events[k + 1..];
    } else {
      assert events[..0] == [];
    }
  }

  /** The log lines of a run starting with a forwarded event. */
  lemma LogLinesCons(events: seq<PollEvent>, k: nat)
    requires k < |events| && forall i :: 0 <= i <= k ==> Forwarded(events[i])
    ensures LogLines(events[..k + 1]) == [LogLine(events[0].chunk)] + LogLines(events[1..][..k])
  {
    assert events[..k + 1] == [events[0]] + events[1..][..k];
  }

  /** How a call to `transcation` ends. `Blocks`: it never returns,
      because no event ends `_transaction`. */
  datatype Outcome = Returns(value: Value) | Raises(fault: Fault) | Blocks

  /** `transcation(req)`: the lookup and `_transaction` run inside a
      `try` whose handler turns any exception into `{'exc': trace}`; a
      result holding 'exc' is raised as RuntimeError; the `in` test itself
      raises TypeError on a reply that is not a container. */
  function Transcation(table: seq<Entry>, req: PyDict, events: seq<PollEvent>): (r: (seq<string>, Outcome))
    ensures "ident" !in req ==>
              r == ([], Raises(Fault(RuntimeError, Str(TraceText(Fault(KeyError, Str("ident")))))))
    ensures "ident" in req && Lookup(table, req["ident"]).Raise? ==>
              r == ([], Raises(Fault(RuntimeError, Str(TraceText(Lookup(table, req["ident"]).fault)))))
    ensures r.1.Returns? ==> Contains(r.1.value, "exc") == Ok(false)
    ensures r.1.Blocks? <==> "ident" in req && Lookup(table, req["ident"]).Ok? &&
                             Transaction(events).result.None?
  {
    if "ident" !in req then
      ([], Raises(Fault(RuntimeError, Str(TraceText(Fault(KeyError, Str("ident")))))))
    else match Lookup(table, req["ident"])
      case Raise(f) => ([], Raises(Fault(RuntimeError, Str(TraceText(f)))))
      case Ok(_) =>
        var tx := Transaction(events);
        match tx.result
        case None => (tx.logged, Blocks)
        case Some(res) =>
          match Contains(res, "exc")
          case Raise(f) => (tx.logged, Raises(f))
          case Ok(has) =>
            if !has then (tx.logged, Returns(res))
            else match Subscript(res, "exc")
              case Ok(m) => (tx.logged, Raises(Fault(RuntimeError, m)))
              case Raise(f) => (tx.logged, Raises(f))
  }

  /** A worker reply under 'exc' reaches the caller as a RuntimeError
      carrying it; a reply without 'exc' is returned as it is; a None reply
      makes the 'exc' test itself raise TypeError. */
  lemma TranscationReply(table: seq<Entry>, req: PyDict, log: seq<PollEvent>, reply: Value)
    requires "ident" in req && Lookup(table, req["ident"]).Ok?
    requires forall i :: 0 <= i < |log| ==> Forwarded(log[i])
    ensures var r := Transcation(table, req, log + [ResponseEvent(1, reply)]);
      && r.0 == LogLines(log)
      && (reply.Dict? && "exc" in reply.entries ==> r.1 == Raises(Fault(RuntimeError, reply.entries["exc"])))
      && (reply.Dict? && "exc" !in reply.entries ==> r.1 == Returns(reply))
      && (reply == Null ==> r.1 == Raises(Fault(TypeError, Null)))
  {
    var events := log + [ResponseEvent(1, reply)];
    TransactionStops(events);
    StopAtFirst(events, |log|);
    assert events[..|log|] == log;
  }

  /** The first event that ends `_transaction` is where `StopAt` points. */
  lemma {:induction false} StopAtFirst(events: seq<PollEvent>, k: nat)
    requires k < |events| && !Forwarded(events[k])
    requires forall i :: 0 <= i < k ==> Forwarded(events[i])
    ensures StopAt(events) == k
    decreases k
  {
    if k > 0 {
      StopAtFirst(events[1..], k - 1);
    }
  }
}
