# dreadnought-js core, modelled in Dafny

dreadnought-js is a CherryPy web server whose routes are served by
JavaScript callbacks. This project models the following parts of it:

- **Callback registry** (`Callbacks`): `AddJsCb` appends a route's
  callback, arguments, logger and options to `JsCbLookup`. The row's
  position is its identifier, and the table is indexed with Python's
  list semantics.
- **Handler pool** (`HandlerPool`): `JsHandlerControl` keeps
  `(handler, in_use)` slots and a cursor. `setup` appends idle slots.
  `checkout` scans cyclically from the cursor for a free slot, marks it
  in use and leaves the cursor on it. `checkin` frees a slot. Both take
  the pool's lock; `HandlerPool.ActAsWritten` models the lock and the
  interleaving of threads' steps.
- **Worker** (`Worker`): the child process's `run` loop serves requests
  until poll reports an event without POLLIN. It covers
  `_handle_streaming` and `_jsexec`. On the parent side, `_transaction`
  forwards log lines until an event ends it, and `transcation` looks up
  the callback and raises a worker's `exc`.
- **Routes** (`Route`):
  - the query-string/post-data collision loop;
  - the streaming `generator`: start frame, pulls until no data, stop
    frame, checkin, error;
  - `_format_response`;
  - the method validation of `register`.
- **require** (`Require`):
  - the search path with `addPath` and `removePath`, mirrored in
    `sys.path`;
  - `_file_data` and its mtime cache;
  - language selection;
  - `_require_js`: the ".js" suffix, the explicit-path branch, the
    search over `RequirePath` and the module name;
  - `_require_py`: the directory/module split.
- **PyInline C scanner** (`CScan`): `trimWhite`, `preProcess` (comment
  and directive removal outside string literals) and
  `findFunctionDefs`. These model the Python 2 regular expressions
  exactly as they scan: alternation order, greedy repetition with
  backtracking, and the rule that `findall` moves on by one character
  where nothing matches.
- **Shell** (`Shell`): the `dnshell.py` read-eval loop with its ">" and
  " " prompts, '\\' continuation lines, and the different error
  handling of buffered and single-line statements.

Python values are modelled by `PyValues.Value`: None, booleans,
integers, strings, lists and dictionaries. An exception is a `Fault`
with its kind and message, and `Result` is either a value or a raised
fault. Outside effects are parameters:

- the JavaScript engine (`Worker.Engine`, `Shell.JsContext`);
- the file system, as a map from path to mtime and contents, together
  with `os.R_OK`;
- Python's `__import__` (`Require.Importer`);
- the sequence of poll events a loop sees.

Three facts about the pool that the model keeps:

- `checkout` leaves the cursor on the slot it returns
  (dnlib/jshandler.py:252-255).
- With every slot busy, `checkout` sleeps and rescans while it still
  holds the pool's lock (dnlib/jshandler.py:248-263). `checkin` needs
  the same lock (dnlib/jshandler.py:268), so no other thread can free a
  slot and the server deadlocks. See Findings.
- `checkin` writes to the cursor's slot, not the given one
  (dnlib/jshandler.py:269). See Findings.

Several lines of dnlib/jsroute.py fail as written. The model follows
the evidently intended code:

- The module imports only `jshandler` and `json` (dnlib/jsroute.py:1-2),
  never `cherrypy`.
  - At line 75, `cherrypy.request.body.params` raises NameError, which
    the bare `except` turns into `post_data = {}`. So, as written, the
    collision loop (lines 80-87) never removes anything:
    `Route.SeparatedNoCollision` covers that case. `Route.Separated`
    takes the post data CherryPy would supply.
  - At line 128, `cherrypy.dispatch` raises NameError, so constructing
    `RouteRegistry` fails and `register` is never reached.
    `Route.Register` models `register` as intended.
- At line 90, `self.js_handler.ident` raises AttributeError on every
  request before `checkout`: `Route.Attribute` has only `ident` and
  `options`. What the request's "path" was meant to hold is not evident,
  and the request handler beyond the collision loop is not modelled.

## Model

| member | source | states |
|---|---|---|
| PyValues.Get | dnlib/jshandler.py:87 | `dict.get(k, default)`: the value under `k` when present, the default otherwise |
| PyValues.Contains | dnlib/jshandler.py:133 | Python's `in` on a reply: a dictionary tests its keys; anything other than a dict, list or string raises |
| PyValues.Subscript | dnlib/jshandler.py:134 | `res['exc']` succeeds exactly when the key is present and returns its value |
| PyValues.PyIndex | dnlib/jshandler.py:127 | list indexing with negative indices: defined exactly for -n <= i < n, giving i or i + n |
| Callbacks.LoggerName | dnlib/jshandler.py:87 | the logger is named "[method]path", with "http" when options have no 'method'; the name ends with the path |
| Callbacks.EntryFor | dnlib/jshandler.py:90-94 | a row keeps the callback and options, with args = options['args'] or None |
| Callbacks.Lookup | dnlib/jshandler.py:127 | `JsCbLookup[ident]`: the row for 0 <= i < n, row i + n for negative i, IndexError outside, TypeError for a non-integer key |
| Callbacks.RegisterAllLookup | dnlib/jshandler.py:93-95 | after any run of registrations, each returned identifier looks up its own registration and earlier rows keep theirs |
| Callbacks.RegisterAllAppends | dnlib/jshandler.py:93-94 | a run of registrations keeps the earlier rows and appends one row per registration, in order |
| Callbacks.CallbackTable.constructor | dnlib/jshandler.py:82 | the table starts empty |
| Callbacks.CallbackTable.Add | dnlib/jshandler.py:84-95 | appends exactly one row, returns the old length, and that identifier looks up the new row |
| HandlerPool.Cyclic | dnlib/jshandler.py:257 | the slot k steps after the cursor, modulo the pool size |
| HandlerPool.StepsTo | dnlib/jshandler.py:251-258 | every slot is reached from the cursor within n steps |
| HandlerPool.FreeOffset | dnlib/jshandler.py:251-258 | the first free slot at or after offset k in cyclic order; all skipped slots are in use |
| HandlerPool.FirstFree | dnlib/jshandler.py:251-258 | the slot `checkout` stops on is free, every slot before it in cyclic order is in use, and there is none exactly when no slot is free |
| HandlerPool.CheckoutStep | dnlib/jshandler.py:246-264 | checkout returns the first free slot from the cursor and its handler, marks only that slot in use, and leaves the cursor on it |
| HandlerPool.CheckoutShrinksFree | dnlib/jshandler.py:253-255 | a checkout removes exactly the returned slot from the free set |
| HandlerPool.CheckinAsWritten | dnlib/jshandler.py:266-270 | checkin as written writes `(jsh, False)` into the cursor's slot, not the given one; it raises on an empty pool |
| HandlerPool.CheckinSlotStep | dnlib/jshandler.py:266-270 | checkin as intended frees the given slot and nothing else |
| HandlerPool.CheckoutThenCheckinSlot | dnlib/jshandler.py:246-270 | checkout followed by the intended checkin restores every slot |
| HandlerPool.CheckinAsWrittenLeaksSlot | dnlib/jshandler.py:246-270 | after two checkouts and both checkins as written, slot 0 stays marked in use though nobody holds it, while the intended checkin leaves both slots free |
| HandlerPool.Checkouts | dnlib/jshandler.py:246-264 | k checkouts in a row keep the pool well formed and return k slots |
| HandlerPool.CheckoutsTake | dnlib/jshandler.py:246-264 | the slots returned by k checkouts were free and are now in use; every other free slot stays free |
| HandlerPool.CheckoutsDistinct | dnlib/jshandler.py:246-264 | no slot is handed out twice by consecutive checkouts |
| HandlerPool.AllFreeCheckoutsDistinct | dnlib/jshandler.py:236-264 | from an idle pool of n, n checkouts return n distinct slots and leave none free |
| HandlerPool.IdleSlots | dnlib/jshandler.py:237-241 | setup's new slots hold the handlers in order, none in use |
| HandlerPool.Pool.constructor | dnlib/jshandler.py:231-234 | empty handler list, cursor 0 |
| HandlerPool.Pool.Setup | dnlib/jshandler.py:236-244 | appends one idle slot per handler; the cursor does not move |
| HandlerPool.ActAsWritten | dnlib/jshandler.py:246-270 | one step of a thread as written: a scan pass runs only with the lock held and keeps it while its slot is busy, moving the cursor; `checkin` and entering `checkout` run exactly when the thread can take the lock |
| HandlerPool.RunAsWritten | dnlib/jshandler.py:246-270 | any interleaving of steps keeps the pool well formed and its size |
| HandlerPool.CheckoutDeadlocks | dnlib/jshandler.py:248-263 | once a thread is scanning with every slot busy, after any steps of other threads it still holds the lock, no slot has changed, and every other thread's `checkin` is blocked |
| HandlerPool.ActFixed | dnlib/jshandler.py:246-270 | one step as intended: a scan pass releases the lock, and `checkin` runs exactly when the lock can be taken and the slot exists, with the effect of `CheckinSlotStep` |
| HandlerPool.CheckoutWaitsFixed | dnlib/jshandler.py:248-263 | as intended, after a busy pass another thread can check handler h into slot j, that becomes the only free slot, and the waiting thread's next checkout returns h in slot j |
| HandlerPool.Pool.Checkout | dnlib/jshandler.py:246-264 | an empty pool raises IndexError at the first read of `handlers[idx]`; otherwise the new state, handler and slot are those of `CheckoutStep` |
| HandlerPool.Pool.Checkin | dnlib/jshandler.py:266-270 | the new state is that of `CheckinAsWritten`; nothing changes when it raises |
| HandlerPool.Pool.CheckinSlot | dnlib/jshandler.py:266-270 | the corrected checkin: the new state is that of `CheckinSlotStep` |
| Worker.ExcReply | dnlib/jshandler.py:214-215 | a caught exception becomes a dictionary whose 'exc' is the trace text |
| Worker.Exec | dnlib/jshandler.py:184-193 | a request without 'ident' raises KeyError, a failed lookup raises its fault, and a found callback's result is exactly what the engine returns for that callback and request |
| Worker.HandleStreaming | dnlib/jshandler.py:168-182 | a start frame begins the context and sends success; otherwise an end frame leaves it and sends success; anything else is executed, and its dictionary is returned |
| Worker.Serve | dnlib/jshandler.py:196-217 | one loop iteration sends two replies for a control frame and one for any other request |
| Worker.ServePlain | dnlib/jshandler.py:206-217 | a plain request gets exactly one reply: its result between enter and leave, or the 'exc' trace with the context entered and not left |
| Worker.ServeStreaming | dnlib/jshandler.py:206-217 | a streaming data request touches no context and gets one reply: the callback's dictionary, or the trace under 'exc' when it raises; 'start-streaming' begins the context, 'end-streaming' leaves it, and each gets `{'success': True}` then None |
| Worker.ServeFixed | dnlib/jshandler.py:168-182 | corrected serving: every request gets exactly one reply; control frames get only the success reply |
| Worker.ControlCount | dnlib/jshandler.py:171-182 | the number of control frames is at most the number of requests |
| Worker.ServeAllReplies | dnlib/jshandler.py:206-217 | as written, a run of requests sends one reply per request plus one per control frame |
| Worker.ServeAllFixedReplies | dnlib/jshandler.py:206-217 | corrected, a run of requests sends exactly one reply per request |
| Worker.ServedCount | dnlib/jshandler.py:199-204 | the loop serves every delivery up to the first event without POLLIN |
| Worker.Requests | dnlib/jshandler.py:207 | the requests read, in delivery order |
| Worker.Run | dnlib/jshandler.py:196-217 | the loop serves exactly the deliveries before the first non-POLLIN event; its context operations and replies are those of serving them in order |
| Worker.ServeLoop | dnlib/jshandler.py:199-217 | the loop, for any loop body, stops at the first delivery without POLLIN and accumulates the bodies' effects in delivery order |
| Worker.ServeAllSnoc | dnlib/jshandler.py:199-217 | one more iteration appends that request's effects to the earlier ones |
| Worker.ServedCountFirstStop | dnlib/jshandler.py:201-204 | the served count is the first position without POLLIN |
| Worker.LogLine | dnlib/jshandler.py:150 | a log line is the chunk without its last character |
| Worker.Answer | dnlib/jshandler.py:152-165 | a readable response event yields the reply; any other event yields an 'exc' dictionary |
| Worker.LogLines | dnlib/jshandler.py:145-150 | one log line per forwarded event, in order |
| Worker.StopAt | dnlib/jshandler.py:144-165 | the first event that is not a readable log event |
| Worker.Transaction | dnlib/jshandler.py:138-165 | `_transaction` keeps polling exactly when every event is a readable log event; it logs at most one line per event, one per event while polling |
| Worker.TransactionStops | dnlib/jshandler.py:138-165 | `_transaction` logs every event before the first non-log event and answers with that event; it keeps polling when there is none |
| Worker.Transcation | dnlib/jshandler.py:121-135 | a missing 'ident' raises RuntimeError with the KeyError trace; a failed lookup raises RuntimeError carrying that lookup's trace, with no log lines; a returned reply holds no 'exc'; it blocks exactly when the lookup succeeds and no event ends the transaction |
| Worker.TranscationReply | dnlib/jshandler.py:121-135 | a reply with 'exc' is raised as RuntimeError carrying it; a reply without it is returned; a None reply raises TypeError; the log lines precede it |
| Worker.StopAtFirst | dnlib/jshandler.py:144-165 | the stopping event is the first non-log event |
| Route.Separated | dnlib/jsroute.py:80-87 | a colliding list keeps its first element; a colliding non-list is removed; others are kept; an empty colliding list raises IndexError, and only then |
| Route.SeparatedNoCollision | dnlib/jsroute.py:80-87 | without a colliding key the query parameters are unchanged |
| Route.SeparateQuery | dnlib/jsroute.py:80-87 | the loop over the colliding keys computes `Separated` |
| Route.PullFrame | dnlib/jsroute.py:41 | the request sent on each pull is the original request with 'streaming' set, and nothing else changed |
| Route.PullStep | dnlib/jsroute.py:43-56 | a reply with 'error' breaks with it; a truthy 'data' is yielded; anything else breaks; a raised transaction propagates |
| Route.YieldRun | dnlib/jsroute.py:42-56 | the number of pulls yielded before the loop ends |
| Route.Datas | dnlib/jsroute.py:49-56 | one yielded chunk per yielding pull |
| Route.Repeat | dnlib/jsroute.py:42-43 | the same frame sent k times |
| Route.GeneratorYields | dnlib/jsroute.py:42-56 | the generator yields exactly the truthy 'data' of the leading replies without 'error', in order |
| Route.GeneratorEnds | dnlib/jsroute.py:42-68 | after the loop ends: one stop frame and one checkin, then a RuntimeError exactly when the loop saw a truthy error; a raising pull skips both |
| Route.GeneratorFrames | dnlib/jsroute.py:33-62 | the start frame goes first; every later frame but the stop frame is the pull frame with 'streaming' set |
| Route.Stream | dnlib/jsroute.py:28-68 | the generator sends the start frame first, checks in at most once and only after the stop frame, and yields at most one chunk per pull |
| Route.Generator | dnlib/jsroute.py:28-68 | the generator body's frames, yields, checkins and ending are those of `Stream` |
| Route.StartFrameFails | dnlib/jsroute.py:34-37 | the start frame has no 'ident', so `transcation` raises before sending and the generator fails with nothing yielded and no checkin |
| Route.StopFrameDoesNotLeave | dnlib/jsroute.py:59-62 | the stop frame has no 'ident', so `transcation` raises before anything reaches the worker; even with the ident added, the worker does not test 'stop-streaming' and runs it as a pull with no context operation |
| Route.StartFrameFor | dnlib/jsroute.py:34-37 | the corrected start frame carries the route's ident and the start and streaming flags |
| Route.EndFrameFor | dnlib/jsroute.py:59-62 | the corrected stop frame sets 'end-streaming', which the worker tests, and carries the ident |
| Route.ControlFramesFixed | dnlib/jsroute.py:33-62 | with the corrected frames and worker, start begins and end leaves the context, and each transaction returns success |
| Route.Attribute | dnlib/jsroute.py:15-17 | a controller has exactly the attributes `ident` and `options`; reading any other raises AttributeError |
| Route.FormatResponseVia | dnlib/jsroute.py:19-24 | `_format_response` reading its options through a named attribute: a failed read propagates, and reading `options` gives `FormatResponse` |
| Route.FormatResponseAsWrittenFails | dnlib/jsroute.py:20 | reading `self.optons` raises AttributeError whatever the response; reading `self.options` formats it |
| Route.FormatResponse | dnlib/jsroute.py:19-24 | corrected: a response with a truthy 'error' raises RuntimeError carrying it; otherwise it is returned unchanged; the json option raises AttributeError because a string has no `get` |
| Route.UpperChar | dnlib/jsroute.py:145 | ASCII upper-casing of one character |
| Route.Upper | dnlib/jsroute.py:145 | upper-cases every character, keeping the length |
| Route.UpperIdempotent | dnlib/jsroute.py:145 | upper-casing twice is upper-casing once |
| Route.ValidateMethod | dnlib/jsroute.py:142-149 | no or falsy method accepts any method; a string method is accepted iff its upper case is GET, POST, PUT or DELETE, otherwise ValueError with the list; a non-string has no `upper` |
| Route.ValidateMethodIgnoresCase | dnlib/jsroute.py:145-147 | methods that agree in upper case are validated alike |
| Route.Register | dnlib/jsroute.py:136-158 | registers the callback first, whatever the validation result, and then validates the method |
| Require.IndexOf | dnlib/require.py:35 | the first position holding the element |
| Require.RemoveFirst | dnlib/require.py:35 | `list.remove`: the first occurrence is removed and the other elements keep their order; hence one fewer element and one occurrence fewer |
| Require.RemovedFirstCounts | dnlib/require.py:35 | removing the first occurrence leaves one element fewer and one occurrence fewer |
| Require.RemoveFirstAppended | dnlib/require.py:28-35 | removing a newly appended element gives the list back |
| Require.DefaultRequirePath | dnlib/require.py:17-18 | four entries, the last "/usr/local/dreadnought/d-mods" |
| Require.AddPathSpec | dnlib/require.py:25-30 | a path already present changes nothing; otherwise it is appended, and also to `sys.path` unless already there |
| Require.RemovePathSpec | dnlib/require.py:32-37 | a path present loses its first occurrence, the rest keeping their order, and so does `sys.path` when it holds it; otherwise nothing changes |
| Require.AddPathIdempotent | dnlib/require.py:25-30 | adding the same path twice equals adding it once |
| Require.AddThenRemove | dnlib/require.py:25-37 | adding a new path and removing it restores both lists |
| Require.AddPathInStep | dnlib/require.py:25-30 | `addPath` keeps the search path duplicate-free and contained in `sys.path` |
| Require.RemoveFirstKeeps | dnlib/require.py:35 | removing one element keeps the others |
| Require.RemoveFirstDistinct | dnlib/require.py:35 | from a duplicate-free list, `remove` takes the element out entirely |
| Require.RemovePathInStep | dnlib/require.py:32-37 | `removePath` keeps that invariant, and the path is gone from the search path |
| Require.DefaultDistinct | dnlib/require.py:17-18 | the default search path has no duplicates |
| Require.FileDataSpec | dnlib/require.py:54-65 | an unreadable file gives None and leaves the cache alone; a cached entry with the current mtime is used; otherwise the file is read and cached under its mtime; no other entry changes |
| Require.FileDataTransparent | dnlib/require.py:54-65 | with a cache that agrees with the files, `_file_data` returns the current contents and keeps the cache coherent |
| Require.FileDataStale | dnlib/require.py:59-62 | a file rewritten within the same mtime is served from the stale cache |
| Require.Split | dnlib/require.py:85 | `str.split(sep)`: at least one piece, none holding sep, several exactly when sep occurs |
| Require.SplitNoSep | dnlib/require.py:85 | a string without the separator splits into itself alone |
| Require.JoinSplit | dnlib/require.py:89 | joining the pieces with the separator gives the string back |
| Require.JoinLast | dnlib/require.py:89 | a join is the join of all but the last piece, the separator, and the last piece |
| Require.SplitLast | dnlib/require.py:88-90 | the last piece is a suffix of the string, preceded by the separator when there are several |
| Require.ModuleName | dnlib/require.py:130 | the module name holds no dot |
| Require.ModuleNameOfLast | dnlib/require.py:130 | the module name is the last path component up to its first dot |
| Require.FirstPiece | dnlib/require.py:130 | the first piece of a split is a prefix of the string, followed by the separator unless it is the whole string |
| Require.SelectLoader | dnlib/require.py:40-52 | javascript by default; javascript, python or c select their loader; any other language raises RequireError with the listed message, and only then |
| Require.JsFileName | dnlib/require.py:102-103 | the name always ends in ".js", and is unchanged when it already does |
| Require.JsFileNameIdempotent | dnlib/require.py:102-103 | adding the suffix twice is adding it once |
| Require.Search | dnlib/require.py:113-119 | a hit has non-empty data |
| Require.FirstHit | dnlib/require.py:113-119 | the first directory holding the file readable and non-empty; every earlier one does not |
| Require.SearchFindsFirst | dnlib/require.py:113-119 | with a coherent cache the search stops at the first hit and returns its path and contents |
| Require.RequireJsReadsPath | dnlib/require.py:102-111 | a name holding '/' loads exactly when the file at that path is readable and non-empty, as `Located(ModuleName(f), f, contents)`, and raises RequireError otherwise |
| Require.RequireJsSpec | dnlib/require.py:98-150 | `_require_js` loads a module under the name its file gives, with non-empty data, or raises RequireError |
| Require.RequireJsSearches | dnlib/require.py:98-150 | a bare name loads from the first directory that holds it, under the file's module name; no hit raises RequireError |
| Require.LastPieceAfter | dnlib/require.py:130 | the last piece of a split is what follows the last separator |
| Require.DefaultPathMissesDirectory | dnlib/require.py:17-18 | the last default entry is joined as "/usr/local/dreadnought/d-modsm.js", so the file looked up is not inside d-mods |
| Require.DefaultRequirePathFixed | dnlib/require.py:17-18 | corrected: every default entry ends with '/' |
| Require.CandidateInDirectory | dnlib/require.py:116 | a directory ending in '/' plus a bare name splits back into that directory and that name |
| Require.PyModuleSpec | dnlib/require.py:79-95 | ".py" dropped; a directory exactly when the name holds '/'; the module holds no '/' |
| Require.PyModuleRoundTrip | dnlib/require.py:82-95 | directory + "/" + module gives the name back |
| Require.RequireState.constructor | dnlib/require.py:17-19 | the default search path, appended to `sys.path`; empty cache |
| Require.RequireState.AddPath | dnlib/require.py:25-30 | the lists become those of `AddPathSpec`; the cache is untouched |
| Require.RequireState.RemovePath | dnlib/require.py:32-37 | the lists become those of `RemovePathSpec`; the cache is untouched |
| Require.RequireState.FileData | dnlib/require.py:54-65 | result and cache are those of `FileDataSpec` |
| Require.RequireState.RequireJs | dnlib/require.py:98-150 | result and cache are those of `RequireJsSpec` |
| Require.RequireState.RequirePy | dnlib/require.py:79-95 | imports the module with its directory prepended to `sys.path`; the path is restored after a successful import and left prepended when the import raises |
| CScan.Skip | dnlib/PyInline/c_util.py:40-41 | the maximal run of a character class from a position |
| CScan.SkipBack | dnlib/PyInline/c_util.py:41 | the maximal run of a class ending at a position |
| CScan.TrimWhite | dnlib/PyInline/c_util.py:40-45 | `trimWhite` is never longer than its input; `TrimWhiteStrips` says what it cuts |
| CScan.TrimWhiteStrips | dnlib/PyInline/c_util.py:42-45 | `trimWhite` returns a contiguous slice with only whitespace cut away, empty or starting and ending with non-space |
| CScan.TrimWhiteIdempotent | dnlib/PyInline/c_util.py:42-45 | trimming twice is trimming once |
| CScan.TrimWhiteKeeps | dnlib/PyInline/c_util.py:42-45 | a string without space at either end is unchanged |
| CScan.QuotedRest | dnlib/PyInline/c_util.py:7-8 | the closing quote of a literal body, skipping backslash escapes |
| CScan.LiteralAt | dnlib/PyInline/c_util.py:7-8 | a literal opens and closes with the same quote |
| CScan.CloseAt | dnlib/PyInline/c_util.py:6 | the first "*/" at or after a position, or none |
| CScan.HeadMatch | dnlib/PyInline/c_util.py:9-13 | the alternative that matches at the head, in the regex's order |
| CScan.PreProcess | dnlib/PyInline/c_util.py:27-28 | the output is never longer than the input |
| CScan.PreProcessPlain | dnlib/PyInline/c_util.py:27-28 | code with no quote, '/' or '#' passes through unchanged |
| CScan.PreProcessKeepsLiteral | dnlib/PyInline/c_util.py:27-28 | a string literal is kept verbatim, even when it contains comment markers |
| CScan.PreProcessDropsLineComment | dnlib/PyInline/c_util.py:5 | a `//` comment is removed up to, not including, the newline |
| CScan.PreProcessDropsBlockComment | dnlib/PyInline/c_util.py:6 | a block comment is removed through its first closing "*/" |
| CScan.PreProcessDropsDirective | dnlib/PyInline/c_util.py:4 | a directive line, with the whitespace before '#', is removed up to the newline |
| CScan.Iterations | dnlib/PyInline/c_util.py:17 | the ends of the greedy `(?:[\w*]+\s+)+` iterations increase strictly |
| CScan.TailAt | dnlib/PyInline/c_util.py:17-22 | the rest of the function pattern: a word-character name, parameters without ')', ending in '{' or ';' |
| CScan.Backtrack | dnlib/PyInline/c_util.py:17-22 | backtracking over the iterations gives a match of the function-signature shape |
| CScan.FunctionAt | dnlib/PyInline/c_util.py:20-22 | a function match at the head has the signature shape |
| CScan.ScanStep | dnlib/PyInline/c_util.py:20-22 | each findall step consumes at least one and at most all remaining characters |
| CScan.ScanStepHits | dnlib/PyInline/c_util.py:20-22 | a step hits a literal exactly when one starts there, and a function exactly when the function pattern matches there |
| CScan.Scan | dnlib/PyInline/c_util.py:32 | every hit lies within the scanned part |
| CScan.ScanOrdered | dnlib/PyInline/c_util.py:32 | findall's hits come in strictly increasing source order |
| CScan.ScanMatches | dnlib/PyInline/c_util.py:32 | every hit is what the pattern matches at its offset |
| CScan.FindAll | dnlib/PyInline/c_util.py:32 | `c_function_def.findall(code)`: every hit lies inside the code |
| CScan.FindAllOrdered | dnlib/PyInline/c_util.py:32 | the hits of the whole code are in source order |
| CScan.FindAllMatches | dnlib/PyInline/c_util.py:32 | every hit of the whole code matches at its offset |
| CScan.Defs | dnlib/PyInline/c_util.py:32-36 | at most one definition per hit |
| CScan.DefsAppend | dnlib/PyInline/c_util.py:32-36 | the definitions of consecutive runs of hits are consecutive, so they follow the hits' order |
| CScan.DefsTrimmed | dnlib/PyInline/c_util.py:34-36 | every field of every definition is trimmed |
| CScan.DefOfShape | dnlib/PyInline/c_util.py:33-36 | a function hit gives a definition with a word-character name and parameters without ')' |
| CScan.DefsShape | dnlib/PyInline/c_util.py:32-36 | every definition has that shape |
| CScan.FindFunctionDefs | dnlib/PyInline/c_util.py:30-37 | at most one definition per hit, and none for empty code |
| CScan.FindFunctionDefsShape | dnlib/PyInline/c_util.py:30-37 | every definition `findFunctionDefs` returns has a non-empty word-character name, parameters without ')', and trimmed fields |
| CScan.ScanSkips | dnlib/PyInline/c_util.py:32 | a scan from any position reports no hit inside what an earlier step consumed |
| CScan.ScanSkipsLiteral | dnlib/PyInline/c_util.py:20-37 | a literal where the scan stands, at any position, is one hit, and every later hit starts after its end |
| CScan.FindAllSkipsLiterals | dnlib/PyInline/c_util.py:20-37 | every literal the whole code's scan reports hides its contents: each later hit starts at or after its end |
| Shell.PromptFor | dnshell.py:54-57 | ">" exactly when nothing is buffered, " " exactly when something is |
| Shell.ThenThen | dnshell.py:52-76 | prefixing events twice is prefixing their concatenation |
| Shell.SessionFrom | dnshell.py:51-76 | the loop from a given line always begins with the prompt for its buffer |
| Shell.Session | dnshell.py:51-76 | a session always begins with the ">" prompt |
| Shell.Run | dnshell.py:51-76 | the loop's transcript is `Session` of the input lines |
| Shell.Turn | dnshell.py:53-76 | one iteration: its events begin the rest of the session; it ends the loop at end of input or on an exception from a buffered command, and otherwise consumes exactly one line |
| Shell.SourcesAppend | dnshell.py:70-74 | the sources evaluated over two stretches are those of each, in order |
| Shell.SmallSources | dnshell.py:59-76 | a prompt evaluates nothing; an evaluation evaluates its source |
| Shell.SessionEvaluatesCommands | dnshell.py:51-76 | the shell evaluates exactly the commands the lines form, joining continuation lines; an escaped buffered error stops it after a nonempty prefix of them |
| Shell.SkippedLineEvaluatesCommands | dnshell.py:63-67 | an empty or continuation line keeps the commands evaluated in step with the input |
| Shell.EvaluatedLineEvaluatesCommands | dnshell.py:68-76 | an evaluated line contributes exactly its command, and the rest of the session the commands after it |
| Shell.EmptyLineSkipped | dnshell.py:63-64 | an empty line prompts again and changes nothing else |
| Shell.ContinuationBuffers | dnshell.py:66-67 | a line ending in '\\' is buffered without the backslash |
| Shell.PendingCommandEvaluated | dnshell.py:68-71 | a line completing a buffer evaluates the joined source; an error there ends the shell |
| Shell.SingleLineEvaluated | dnshell.py:72-76 | a lone line is evaluated; its error is printed and the loop goes on |
| Shell.SingleLinesReachEnd | dnshell.py:51-76 | without continuation lines the shell always reaches end of input |
| Shell.PendingDroppedAtEnd | dnshell.py:58-61 | at end of input a pending buffer is dropped without evaluation |

## Left out

- Locks (`threading.RLock`) and concurrency between request threads, except the pool's lock in `HandlerPool.ActAsWritten` and `HandlerPool.ActFixed`. Elsewhere each operation is one atomic step. The lock is modelled as held or free, without the re-entrant count.
- `time.sleep(0.5)` in `checkout`: it has no effect on state.
- `os.fork`, the pipes, pickling and `select.poll` itself. Poll results are the input sequences `Delivery` and `PollEvent`.
- PyV8. Evaluating a callback is the `Worker.Engine` parameter, which also covers the `dict(...)` conversion of its result. The shell's context is `Shell.JsContext`, a function of the earlier sources. `_require_js` models neither the sandbox evaluation of module text nor the namespace difference: the module is the name, path and data located.
- `__import__`: it is the `Require.Importer` parameter.
- `_require_c` and `PyInline.build`: the C compiler build is not part of this model.
- CherryPy's routing, the dispatcher's `connect`, and the HTTP verb handlers beyond the collision loop.
- `jslogging`: log lines are modelled as the strings forwarded.
- The json option's `json.dumps`. The model records only that its string result then has no `get`.
- Python's `repr` escaping in the RequireError message, the text of traceback stacks, and the value placeholders in `Show`.
- Route.Upper: ASCII case mapping only; non-ASCII letters are left unchanged.
- File mtimes are integers rather than floats.
- HandlerPool.Pool.Checkout: an empty pool raises IndexError, as modelled. With every slot of a non-empty pool in use, the source never returns: it scans holding the lock that every `checkin` needs, so no slot can be freed (`HandlerPool.CheckoutDeadlocks`). A free slot is therefore required. The lock the source leaves held after the IndexError is not modelled.
- HandlerPool.CheckoutStep: requires a free slot, because with none `checkout` never returns; the empty pool is handled by `HandlerPool.Pool.Checkout`.
- Worker.Run: ends at end of input or at the first closed-pipe event.
- dnshell's banner, the readline history file and the `Shell` class wrapper.
- CScan.Scan: its clamp of a step's length never applies to `ScanStep`, which consumes at least one character.
- `_stream_generator` (dnlib/jsroute.py:101) is never defined: `RouteController` has only `generator`. The model treats the streaming path as calling `generator`.
- `RouteController(ident)` (dnlib/jsroute.py:139) passes one argument to a two-argument constructor, so `register` would raise TypeError after `AddJsCb`. `Route.Register` models registration as intended, with the options passed.

## Findings

| source | as written | input that shows it | evidently intended | confidence | as-written member | corrected member |
|---|---|---|---|---|---|---|
| dnlib/jshandler.py:269 | `checkin` writes into `self.handlers[self.idx]`, the slot under the cursor, not the slot passed in | two idle slots holding handlers 10 and 11: checkout → slot 0, checkout → slot 1, checkin(10, 0) and checkin(11, 1) both write slot 1, so slot 0 stays in use with no holder; the scan never frees it, and each such checkin leaks a slot until `checkout` spins forever | free the slot given by `idx` | high (not executed) | HandlerPool.CheckinAsWrittenLeaksSlot | HandlerPool.CheckoutThenCheckinSlot |
| dnlib/jshandler.py:248-263 | `checkout` keeps the pool's lock through its whole scan, including the pauses, and `checkin` (line 268) needs the same lock | every slot in use and another thread calling `checkin`: that thread blocks on the lock while `checkout` rescans busy slots forever | release the lock while pausing, so a `checkin` can free a slot | high (not executed) | HandlerPool.CheckoutDeadlocks | HandlerPool.CheckoutWaitsFixed |
| dnlib/jshandler.py:171-182 | the start and end branches send `{'success': True}` and return None, which `run` then sends too | any request with 'streaming' and 'start-streaming' gets two replies | one reply per request | high (not executed) | Worker.ServeAllReplies | Worker.ServeAllFixedReplies |
| dnlib/jsroute.py:59-62 | the stop frame sets 'stop-streaming', but the worker tests 'end-streaming' | the stop frame carries no 'ident' either, so `transcation` raises before sending it; with the ident added, the worker would run it as a pull and never leave the streaming context | send 'end-streaming' | high (not executed) | Route.StopFrameDoesNotLeave | Route.ControlFramesFixed |
| dnlib/jsroute.py:34-37 | the start frame has no 'ident', and `transcation` looks it up first | every streaming route raises RuntimeError (KeyError 'ident') on its first frame and never checks its handler in | carry the route's ident in control frames | high (not executed) | Route.StartFrameFails | Route.StartFrameFor |
| dnlib/require.py:17-18 | '/usr/local/dreadnought/d-mods' lacks a trailing '/' | require('m') looks for '/usr/local/dreadnought/d-modsm.js' | '/usr/local/dreadnought/d-mods/' | high (not executed) | Require.DefaultPathMissesDirectory | Require.DefaultRequirePathFixed |
| dnlib/jsroute.py:20 | `self.optons` | any response reaching `_format_response` raises AttributeError (as written, line 90 already fails before) | `self.options` | high (not executed) | Route.FormatResponseAsWrittenFails | Route.FormatResponse |
