/**
 * The request logic of `RouteController` and `RouteRegistry`: separating
 * query parameters from post data, the streaming generator, the error
 * check on a response and the validation of a route's HTTP method.
 *
 * The handler the generator talks to is foreign here: the outcome of each
 * `jsh.transcation(frame)` call is given, in call order.
 */
module Route {
  import opened PyValues
  import opened Callbacks
  import opened Worker

  // ---------------------------------------------------------------------
  // Query parameters and post data

  /** A colliding key whose query value is an empty list: `qs_params[k][0]`
      raises IndexError. */
  predicate EmptyCollision(qs: PyDict, post: PyDict) {
    exists k :: k in qs && k in post && qs[k] == List([])
  }

  /** What the collision loop leaves in `qs_params`: a key also in the post
      data keeps the first element of its list (the query string's value),
      or is dropped when its value is not a list (it is post data mixed in);
      every other key is kept as it is. */
  function Separated(qs: PyDict, post: PyDict): (r: Result<PyDict>)
    ensures r.Raise? <==> EmptyCollision(qs, post)
    ensures r.Raise? ==> r.fault.kind == IndexError
    ensures r.Ok? ==> forall k :: k in qs && k !in post ==> k in r.value && r.value[k] == qs[k]
    ensures r.Ok? ==> forall k :: k in qs && k in post && qs[k].List? ==>
                        k in r.value && r.value[k] == qs[k].items[0]
    ensures r.Ok? ==> forall k :: k in qs && k in post && !qs[k].List? ==> k !in r.value
    ensures r.Ok? ==> r.value.Keys <= qs.Keys
  {
    if EmptyCollision(qs, post) then Raise(Fault(IndexError, Null))
    else Ok(map k | k in qs && (k !in post || qs[k].List?) ::
              if k in post then qs[k].items[0] else qs[k])
  }

  /** Without a collision the query parameters pass through unchanged. */
  lemma SeparatedNoCollision(qs: PyDict, post: PyDict)
    requires qs.Keys * post.Keys == {}
    ensures Separated(qs, post) == Ok(qs)
  {
    forall k | k in qs
      ensures k !in post
    {
      assert k in qs.Keys;
      assert k !in qs.Keys * post.Keys;
    }
    assert !EmptyCollision(qs, post);
    var r := Separated(qs, post).value;
    assert r.Keys == qs.Keys;
    assert forall k :: k in r ==> r[k] == qs[k];
    assert r == qs;
    assert Separated(qs, post) == Ok(r);
  }

  /** The collision loop of `__handler`: for each key present in both the
      query parameters and the post data, in whatever order the set yields
      them, a list value is replaced by its first element and any other
      value is deleted. The post data is never changed. */
  method SeparateQuery(qs: PyDict, post: PyDict) returns (r: Result<PyDict>)
    ensures r == Separated(qs, post)
  {
    var q := qs;
    var pending := qs.Keys * post.Keys;
    while pending != {}
      invariant pending <= qs.Keys * post.Keys
      invariant q.Keys <= qs.Keys
      invariant forall k :: k in qs && (k !in post || k in pending) ==> k in q && q[k] == qs[k]
      invariant forall k :: k in qs && k in post && k !in pending ==>
                  (qs[k].List? && qs[k].items != [] && k in q && q[k] == qs[k].items[0])
                  || (!qs[k].List? && k !in q)
      decreases |pending|
    {
      var k :| k in pending;
      if q[k].List? {
        if q[k].items == [] {
          assert EmptyCollision(qs, post);
          return Raise(Fault(IndexError, Null));
        }
        q := q[k := q[k].items[0]];
      } else {
        q := q - {k};
      }
      pending := pending - {k};
    }
    assert !EmptyCollision(qs, post);
    r := Ok(q);
    assert q == Separated(qs, post).value;
  }

  // ---------------------------------------------------------------------
  // The streaming generator

  /** The frame that opens a stream, as written: it has no 'ident'. */
  const StartFrame: PyDict := map["start-streaming" := Bool(true), "streaming" := Bool(true)]

  /** The frame that closes a stream, as written: it sets 'stop-streaming',
      a flag the worker does not test. */
  const StopFrame: PyDict := map["stop-streaming" := Bool(true), "streaming" := Bool(true)]

  /** The request with `req['streaming'] = True`, sent on every pull. */
  function PullFrame(req: PyDict): (f: PyDict)
    ensures Flag(f, "streaming") && f.Keys == req.Keys + {"streaming"}
    ensures forall k :: k in req && k != "streaming" ==> f[k] == req[k]
  {
    req["streaming" := Bool(true)]
  }

  /** What the loop does with one pull's outcome. */
  datatype Step = Yield(data: Value) | Break(error: Value) | Throw(fault: Fault)

  /** One turn of the generator's loop on the outcome of
      `jsh.transcation(req)`: an exception propagates; a response holding
      'error' ends the loop with that error; otherwise `res.get('data')`
      is yielded when truthy and ends the loop when not. A response that is
      not a dictionary makes `in` or `.get` raise. */
  function PullStep(res: Result<Value>): (s: Step)
    ensures res.Ok? && res.value.Dict? && "error" in res.value.entries ==> s == Break(res.value.entries["error"])
    ensures res.Ok? && res.value.Dict? && "error" !in res.value.entries ==>
              var data := Get(res.value.entries, "data", Null);
              (Truthy(data) ==> s == Yield(data)) && (!Truthy(data) ==> s == Break(Null))
    ensures s.Yield? ==> Truthy(s.data) && res.Ok? && res.value.Dict?
    ensures res.Raise? ==> s == Throw(res.fault)
  {
    match res
    case Raise(f) => Throw(f)
    case Ok(v) =>
      match Contains(v, "error")
      case Raise(f) => Throw(f)
      case Ok(hasError) =>
        if hasError then
          match Subscript(v, "error")
          case Ok(e) => Break(e)
          case Raise(f) => Throw(f)
        else if !v.Dict? then Throw(Fault(AttributeError, Str("get")))
        else
          var data := Get(v.entries, "data", Null);
          if Truthy(data) then Yield(data) else Break(Null)
  }

  /** The number of pulls that yield before the first one that does not. */
  function YieldRun(pulls: seq<Result<Value>>): (k: nat)
    ensures k <= |pulls|
    ensures forall i :: 0 <= i < k ==> PullStep(pulls[i]).Yield?
    ensures k < |pulls| ==> !PullStep(pulls[k]).Yield?
    decreases |pulls|
  {
    if pulls == [] || !PullStep(pulls[0]).Yield? then 0 else 1 + YieldRun(pulls[1..])
  }

  /** The data of a run of yielding pulls. */
  function Datas(pulls: seq<Result<Value>>): (ds: seq<Value>)
    requires forall i :: 0 <= i < |pulls| ==> PullStep(pulls[i]).Yield?
    ensures |ds| == |pulls|
  {
    seq(|pulls|, i requires 0 <= i < |pulls| => PullStep(pulls[i]).data)
  }

  /** The same frame `n` times. */
  function Repeat(f: PyDict, n: nat): (fs: seq<PyDict>)
    ensures |fs| == n && forall i :: 0 <= i < n ==> fs[i] == f
  {
    seq(n, i => f)
  }

  /** How a generator run ends: still waiting on a pull, finished
      normally, or with an exception. */
  datatype Ending = Suspended | Finished | Failed(fault: Fault)

  /** The frames sent, the chunks yielded, the number of checkins and the
      ending of a generator run. */
  datatype StreamRun = StreamRun(frames: seq<PyDict>, yielded: seq<Value>, checkins: nat, ending: Ending)

  /** `generator(jsh, idx, req, options)` given the outcomes of its
      transactions in call order: the start frame's, the pulls', the stop
      frame's. */
  function Stream(req: PyDict, start: Result<Value>, pulls: seq<Result<Value>>, stop: Result<Value>): (r: StreamRun)
    ensures r.frames != [] && r.frames[0] == StartFrame
    ensures r.checkins <= 1
    ensures r.checkins == 1 ==> r.frames[|r.frames| - 1] == StopFrame && !r.ending.Suspended?
    ensures |r.yielded| <= |pulls|
  {
    if start.Raise? then StreamRun([StartFrame], [], 0, Failed(start.fault))
    else
      var k := YieldRun(pulls);
      var yielded := Datas(pulls[..k]);
      if k == |pulls| then StreamRun([StartFrame] + Repeat(PullFrame(req), k), yielded, 0, Suspended)
      else
        var frames := [StartFrame] + Repeat(PullFrame(req), k + 1);
        var step := PullStep(pulls[k]);
        if step.Throw? then StreamRun(frames, yielded, 0, Failed(step.fault))
        else if stop.Raise? then StreamRun(frames + [StopFrame], yielded, 0, Failed(stop.fault))
        else StreamRun(frames + [StopFrame], yielded, 1,
                       if Truthy(step.error) then Failed(Fault(RuntimeError, step.error)) else Finished)
  }

  /** The generator yields the 'data' of the responses in order, each one
      truthy and from a dictionary without 'error', up to the first
      response that does not yield; that response's data is never
      yielded. */
  lemma GeneratorYields(req: PyDict, start: Result<Value>, pulls: seq<Result<Value>>, stop: Result<Value>)
    requires start.Ok?
    ensures var r := Stream(req, start, pulls, stop);
      && |r.yielded| == YieldRun(pulls)
      && forall i :: 0 <= i < |r.yielded| ==>
           && pulls[i].Ok? && pulls[i].value.Dict?
           && "error" !in pulls[i].value.entries
           && "data" in pulls[i].value.entries
           && r.yielded[i] == pulls[i].value.entries["data"]
           && Truthy(r.yielded[i])
  {
    var k := YieldRun(pulls);
    var r := Stream(req, start, pulls, stop);
    forall i | 0 <= i < k
      ensures r.yielded[i] == PullStep(pulls[i]).data
    {
      assert pulls[..k][i] == pulls[i];
    }
  }

  /** Once the loop has ended on a response, exactly one stop frame follows
      the start frame and the pulls; exactly one checkin follows unless the
      stop frame's transaction raised; the generator then raises a
      RuntimeError carrying the error exactly when the loop ended on a
      truthy 'error'. A pull that raises skips both the stop frame and the
      checkin. */
  lemma GeneratorEnds(req: PyDict, start: Result<Value>, pulls: seq<Result<Value>>, stop: Result<Value>)
    requires start.Ok? && YieldRun(pulls) < |pulls|
    ensures var k := YieldRun(pulls);
      var step := PullStep(pulls[k]);
      var r := Stream(req, start, pulls, stop);
      && r.frames[..k + 2] == [StartFrame] + Repeat(PullFrame(req), k + 1)
      && (step.Throw? ==> |r.frames| == k + 2 && r.checkins == 0 && r.ending == Failed(step.fault))
      && (step.Break? ==> |r.frames| == k + 3 && r.frames[k + 2] == StopFrame)
      && (step.Break? && stop.Ok? ==>
            && r.checkins == 1
            && (r.ending.Failed? <==> Truthy(step.error))
            && (r.ending.Failed? ==> r.ending.fault == Fault(RuntimeError, step.error)))
  {
    var k := YieldRun(pulls);
    var r := Stream(req, start, pulls, stop);
    var frames := [StartFrame] + Repeat(PullFrame(req), k + 1);
    if PullStep(pulls[k]).Break? {
      assert r.frames == frames + [StopFrame];
      assert r.frames[..k + 2] == frames;
    }
  }

  /** Every pull carries the request with 'streaming' set, and the start
      frame goes out before any of them. */
  lemma GeneratorFrames(req: PyDict, start: Result<Value>, pulls: seq<Result<Value>>, stop: Result<Value>)
    ensures var r := Stream(req, start, pulls, stop);
      && |r.frames| >= 1 && r.frames[0] == StartFrame
      && (start.Raise? ==> |r.frames| == 1)
      && forall i :: 0 < i < |r.frames| && r.frames[i] != StopFrame ==>
           r.frames[i] == PullFrame(req) && Flag(r.frames[i], "streaming")
  {
  }

  /** The generator's body: one start frame, then pulls until a response
      ends the loop, then one stop frame and one checkin, then the error,
      if any, raised. */
  method Generator(req: PyDict, start: Result<Value>, pulls: seq<Result<Value>>, stop: Result<Value>) returns (run: StreamRun)
    ensures run == Stream(req, start, pulls, stop)
  {
    var frames := [StartFrame];
    if start.Raise? {
      return StreamRun(frames, [], 0, Failed(start.fault));
    }
    var error := Null;
    var yielded := [];
    var i := 0;
    while true
      invariant i <= YieldRun(pulls)
      invariant frames == [StartFrame] + Repeat(PullFrame(req), i)
      invariant yielded == Datas(pulls[..i])
      decreases |pulls| - i
    {
      if i == |pulls| {
        assert pulls[..i] == pulls;
        return StreamRun(frames, yielded, 0, Suspended);
      }
      frames := frames + [PullFrame(req)];
      var step := PullStep(pulls[i]);
      if !step.Yield? {
        assert i == YieldRun(pulls);
        assert frames == [StartFrame] + Repeat(PullFrame(req), i + 1);
      }
      if step.Throw? {
        return StreamRun(frames, yielded, 0, Failed(step.fault));
      } else if step.Break? {
        error := step.error;
        break;
      }
      assert Datas(pulls[..i + 1]) == Datas(pulls[..i]) + [step.data];
      yielded := yielded + [step.data];
      i := i + 1;
    }
    frames := frames + [StopFrame];
    if stop.Raise? {
      return StreamRun(frames, yielded, 0, Failed(stop.fault));
    }
    var checkins := 1;
    if Truthy(error) {
      return StreamRun(frames, yielded, checkins, Failed(Fault(RuntimeError, error)));
    }
    return StreamRun(frames, yielded, checkins, Finished);
  }

  // ---------------------------------------------------------------------
  // Control frames against the worker

  /** The start frame carries no 'ident', so `transcation` fails on its
      table lookup before anything is sent: a streaming route fails on its
      first frame, yields nothing, and never checks its handler back in. */
  lemma StartFrameFails(table: seq<Entry>, events: seq<PollEvent>, req: PyDict, pulls: seq<Result<Value>>, stop: Result<Value>)
    ensures var t := Transcation(table, StartFrame, events);
      && t.1 == Raises(Fault(RuntimeError, Str(TraceText(Fault(KeyError, Str("ident"))))))
      && Stream(req, Raise(t.1.fault), pulls, stop) == StreamRun([StartFrame], [], 0, Failed(t.1.fault))
  {
  }

  /** The stop frame as written carries no 'ident', so `transcation`
      fails on its table lookup before anything reaches the worker. With
      the route's identifier added it would still not leave the context
      the start frame began: the worker tests 'end-streaming', not
      'stop-streaming', so it runs the frame as one more data pull, with
      no context operation and a single reply. */
  lemma StopFrameDoesNotLeave(table: seq<Entry>, engine: Engine, events: seq<PollEvent>, ident: Value)
    ensures Transcation(table, StopFrame, events) == ([], Raises(Fault(RuntimeError, Str(TraceText(Fault(KeyError, Str("ident")))))))
    ensures var served := Serve(table, engine, StopFrame["ident" := ident]);
      served.ops == [] && |served.sent| == 1
  {
    var frame := StopFrame["ident" := ident];
    assert Flag(frame, "streaming") && !Flag(frame, "start-streaming") && !Flag(frame, "end-streaming");
  }

  /** The start frame as evidently intended: it names the route. */
  function StartFrameFor(ident: Value): (f: PyDict)
    ensures Flag(f, "start-streaming") && Flag(f, "streaming") && "ident" in f && f["ident"] == ident
  {
    StartFrame["ident" := ident]
  }

  /** The stop frame as evidently intended: the flag the worker tests, and
      the route's identifier. */
  function EndFrameFor(ident: Value): (f: PyDict)
    ensures !Flag(f, "start-streaming") && Flag(f, "end-streaming") && Flag(f, "streaming")
    ensures "ident" in f && f["ident"] == ident
  {
    map["end-streaming" := Bool(true), "streaming" := Bool(true), "ident" := ident]
  }

  /** With the intended frames and the corrected worker loop, a stream
      begins and leaves the context, each control frame gets exactly one
      `{'success': True}`, and `transcation` hands that reply back. */
  lemma ControlFramesFixed(table: seq<Entry>, engine: Engine, ident: Value)
    requires Lookup(table, ident).Ok?
    ensures ServeFixed(table, engine, StartFrameFor(ident)) == Served([Begin], [SuccessReply])
    ensures ServeFixed(table, engine, EndFrameFor(ident)) == Served([Leave], [SuccessReply])
    ensures Transcation(table, StartFrameFor(ident), [ResponseEvent(1, SuccessReply)]) == ([], Returns(SuccessReply))
    ensures Transcation(table, EndFrameFor(ident), [ResponseEvent(1, SuccessReply)]) == ([], Returns(SuccessReply))
  {
    var events := [ResponseEvent(1, SuccessReply)];
    TranscationReply(table, StartFrameFor(ident), [], SuccessReply);
    TranscationReply(table, EndFrameFor(ident), [], SuccessReply);
    assert [] + events == events;
  }

  // ---------------------------------------------------------------------
  // Responses

  /** A `RouteController` as its constructor leaves it: the attributes
      `ident` and `options`, and no others. */
  datatype Controller = Controller(ident: Value, options: PyDict)

  /** Reading the attribute `name` of a controller: AttributeError for any
      name but the two the constructor sets. */
  function Attribute(c: Controller, name: string): (r: Result<Value>)
    ensures r.Ok? <==> name == "ident" || name == "options"
    ensures name == "ident" ==> r == Ok(c.ident)
    ensures name == "options" ==> r == Ok(Dict(c.options))
    ensures r.Raise? ==> r.fault == Fault(AttributeError, Str(name))
  {
    if name == "ident" then Ok(c.ident)
    else if name == "options" then Ok(Dict(c.options))
    else Raise(Fault(AttributeError, Str(name)))
  }

  /** `_format_response(res)` reading its options through the attribute
      `name`: a failed read propagates, and options that are not a
      dictionary have no `get`. */
  function FormatResponseVia(c: Controller, name: string, res: Value): (r: Result<Value>)
    ensures Attribute(c, name).Raise? ==> r == Raise(Attribute(c, name).fault)
    ensures name == "options" ==> r == FormatResponse(c.options, res)
  {
    match Attribute(c, name)
    case Raise(f) => Raise(f)
    case Ok(v) =>
      if v.Dict? then FormatResponse(v.entries, res)
      else Raise(Fault(AttributeError, Str("get")))
  }

  /** As written, `_format_response` reads `self.optons`, which no
      controller has: it raises AttributeError whatever the response, while
      the intended read of `self.options` formats it. */
  lemma FormatResponseAsWrittenFails(c: Controller, res: Value)
    ensures FormatResponseVia(c, "optons", res) == Raise(Fault(AttributeError, Str("optons")))
    ensures FormatResponseVia(c, "options", res) == FormatResponse(c.options, res)
  {
  }

  /** `_format_response(res)` reading `self.options`: with the 'json' option
      the response becomes a string, which has no `.get`; a response that
      is not a dictionary has none either; a truthy 'error' is raised as
      RuntimeError; otherwise the response is returned unchanged. */
  function FormatResponse(options: PyDict, res: Value): (r: Result<Value>)
    ensures Flag(options, "json") ==> r.Raise? && r.fault.kind == AttributeError
    ensures r.Ok? ==> r.value == res && res.Dict? && !Truthy(Get(res.entries, "error", Bool(false)))
    ensures !Flag(options, "json") && res.Dict? ==>
              (r.Ok? <==> !Truthy(Get(res.entries, "error", Bool(false))))
    ensures r.Raise? && r.fault.kind == RuntimeError ==>
              res.Dict? && "error" in res.entries && r.fault.message == res.entries["error"]
  {
    if Flag(options, "json") then Raise(Fault(AttributeError, Str("get")))
    else if !res.Dict? then Raise(Fault(AttributeError, Str("get")))
    else if Truthy(Get(res.entries, "error", Bool(false))) then Raise(Fault(RuntimeError, res.entries["error"]))
    else Ok(res)
  }

  // ---------------------------------------------------------------------
  // Registration

  /** The methods a route may be restricted to. */
  const Methods: seq<string> := ["GET", "POST", "PUT", "DELETE"]

  /** The message of the ValueError for any other method. */
  const MethodMessage: string := "options.method must be one of GET,POST,PUT,DELETE"

  /** `str.upper()` on one character, ASCII letters only. */
  function UpperChar(c: char): (u: char)
    ensures 'a' <= c <= 'z' ==> u as int == c as int - 32
    ensures !('a' <= c <= 'z') ==> u == c
    ensures !('a' <= u <= 'z')
  {
    if 'a' <= c <= 'z' then (c as int - 32) as char else c
  }

  /** `str.upper()`, ASCII letters only. */
  function Upper(s: string): (u: string)
    ensures |u| == |s| && forall i :: 0 <= i < |s| ==> u[i] == UpperChar(s[i])
  {
    seq(|s|, i requires 0 <= i < |s| => UpperChar(s[i]))
  }

  /** Upper-casing twice is upper-casing once. */
  lemma UpperIdempotent(s: string)
    ensures Upper(Upper(s)) == Upper(s)
  {
    assert forall i :: 0 <= i < |s| ==> Upper(Upper(s))[i] == Upper(s)[i];
  }

  /** The method validation of `register`: no method (or a falsy one)
      means no condition on the route; a string is upper-cased and must be
      one of `Methods`, else ValueError; any other truthy value has no
      `.upper()`. The result is the condition the route is connected
      with. */
  function ValidateMethod(opt: PyDict): (r: Result<Option<string>>)
    ensures !Truthy(Get(opt, "method", Null)) ==> r == Ok(None)
    ensures r.Ok? && r.value.Some? ==>
              "method" in opt && opt["method"].Str? && r.value.value == Upper(opt["method"].s) && r.value.value in Methods
    ensures "method" in opt && opt["method"].Str? && opt["method"].s != "" ==>
              (r.Ok? <==> Upper(opt["method"].s) in Methods)
              && (r.Raise? ==> r.fault == Fault(ValueError, Str(MethodMessage)))
    ensures Truthy(Get(opt, "method", Null)) && !opt["method"].Str? ==> r.Raise? && r.fault.kind == AttributeError
  {
    var m := Get(opt, "method", Null);
    if !Truthy(m) then Ok(None)
    else if !m.Str? then Raise(Fault(AttributeError, Str("upper")))
    else
      var u := Upper(m.s);
      if u in Methods then Ok(Some(u)) else Raise(Fault(ValueError, Str(MethodMessage)))
  }

  /** The method check ignores case: two spellings that upper-case alike
      are treated alike. */
  lemma ValidateMethodIgnoresCase(opt: PyDict, s: string, t: string)
    requires Upper(s) == Upper(t)
    ensures ValidateMethod(opt["method" := Str(s)]) == ValidateMethod(opt["method" := Str(t)])
  {
  }

  /** `register(path, jscb, options)` with the controller built from the
      row's identifier and the options: the row is added to the callback
      table before the method is checked, so a rejected method still
      leaves its row behind. */
  method Register(table: CallbackTable, path: string, callback: Value, options: PyDict) returns (r: Result<Option<string>>)
    modifies table
    ensures table.entries == old(table.entries) + [EntryFor(Registration(path, callback, options))]
    ensures r == ValidateMethod(options)
  {
    var opt := options;
    var ident := table.Add(path, callback, opt);
    r := ValidateMethod(opt);
  }
}
