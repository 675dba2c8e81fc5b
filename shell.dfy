/**
 * The line assembly of the interactive shell (`dnshell.run`): a buffer
 * collects lines that end in a backslash, a plain line completes the
 * command, and the prompt shows whether a command is pending. The
 * JavaScript context is a function of the sources evaluated before and
 * the source evaluated now; reading a line is a list of input lines whose
 * end is end of input.
 */
module Shell {
  import opened PyValues

  /** What the shell does, in order. */
  datatype ShellEvent =
    | Prompt(prompt: string)  // `raw_input(prompt)`
    | Eval(source: string)    // `sh.evaluate(source)`
    | Printed(fault: Fault)   // `print sys.exc_info()[1]`

  /** How the loop ends: at end of input, or with an exception the loop
      does not catch. */
  datatype Ending = EndOfInput | Uncaught(fault: Fault)

  datatype Transcript = Transcript(events: seq<ShellEvent>, ending: Ending)

  /** The JavaScript context: the outcome of evaluating a source after the
      sources evaluated before it. */
  type JsContext = (seq<string>, string) -> Result<Value>

  /** The prompt: `>` when no command is pending, a space otherwise. */
  function PromptFor(buf: string): (p: string)
    ensures p == ">" <==> buf == []
    ensures p == " " <==> buf != []
  {
    if |buf| == 0 then ">" else " "
  }

  predicate IsContinuation(line: string) {
    line != [] && line[|line| - 1] == '\\'
  }

  /** `events` happen, then `t`. */
  function Then(events: seq<ShellEvent>, t: Transcript): Transcript {
    Transcript(events + t.events, t.ending)
  }

  /** The loop from input line `i` on, with `buf` pending and `history`
      evaluated so far. */
  function SessionFrom(lines: seq<string>, i: nat, buf: string, history: seq<string>, js: JsContext): (t: Transcript)
    requires i <= |lines|
    ensures t.events != [] && t.events[0] == Prompt(PromptFor(buf))
    decreases |lines| - i
  {
    var prompt := Prompt(PromptFor(buf));
    if i == |lines| then Transcript([prompt], EndOfInput)
    else
      var line := lines[i];
      if |line| == 0 then
        Then([prompt], SessionFrom(lines, i + 1, buf, history, js))
      else if IsContinuation(line) then
        Then([prompt], SessionFrom(lines, i + 1, buf + line[..|line| - 1], history, js))
      else if |buf| > 0 then
        var source := buf + line;
        match js(history, source)
        case Raise(f) => Transcript([prompt, Eval(source)], Uncaught(f))
        case Ok(_) => Then([prompt, Eval(source)], SessionFrom(lines, i + 1, "", history + [source], js))
      else
        match js(history, line)
        case Raise(f) => Then([prompt, Eval(line), Printed(f)], SessionFrom(lines, i + 1, buf, history + [line], js))
        case Ok(_) => Then([prompt, Eval(line)], SessionFrom(lines, i + 1, buf, history + [line], js))
  }

  /** A whole session over the input `lines`. */
  function Session(lines: seq<string>, js: JsContext): (t: Transcript)
    ensures t.events != [] && t.events[0] == Prompt(">")
  {
    SessionFrom(lines, 0, "", [], js)
  }

  lemma ThenThen(a: seq<ShellEvent>, b: seq<ShellEvent>, t: Transcript)
    ensures Then(a, Then(b, t)) == Then(a + b, t)
  {
    assert a + (b + t.events) == (a + b) + t.events;
  }

  /** `run()`: the `while True` loop, one input line per iteration. */
  method Run(lines: seq<string>, js: JsContext) returns (t: Transcript)
    ensures t == Session(lines, js)
  {
    var buf := "";
    var history: seq<string> := [];
    var events: seq<ShellEvent> := [];
    var i := 0;
    while true
      invariant i <= |lines|
      invariant Then(events, SessionFrom(lines, i, buf, history, js)) == Session(lines, js)
      decreases |lines| - i
    {
      var step, ending;
      step, i, buf, history, ending := Turn(lines, i, buf, history, js);
      if ending.Some? {
        return Transcript(events + step, ending.value);
      }
      ThenThen(events, step, SessionFrom(lines, i, buf, history, js));
      events := events + step;
    }
  }

  /** One iteration of `run`'s loop: prompt, read a line and act on it.
      The events it produces come first in the rest of the session; an
      ending means the loop is left. */
  method Turn(lines: seq<string>, i: nat, buf: string, history: seq<string>, js: JsContext)
    returns (step: seq<ShellEvent>, i': nat, buf': string, history': seq<string>, ending: Option<Ending>)
    requires i <= |lines|
    ensures ending.Some? ==> SessionFrom(lines, i, buf, history, js) == Transcript(step, ending.value)
    ensures ending.None? ==> i' == i + 1 && i' <= |lines|
    ensures ending.None? ==> SessionFrom(lines, i, buf, history, js) == Then(step, SessionFrom(lines, i', buf', history', js))
  {
    step, i', buf', history', ending := [Prompt(PromptFor(buf))], i, buf, history, None;
    if i == |lines| {
      ending := Some(EndOfInput);
      return;
    }
    var line := lines[i];
    i' := i + 1;
    if |line| == 0 {
    } else if line[|line| - 1] == '\\' {
      buf' := buf + line[..|line| - 1];
    } else if |buf| > 0 {
      var source := buf + line;
      step := step + [Eval(source)];
      var r := js(history, source);
      if r.Raise? {
        ending := Some(Uncaught(r.fault));
        return;
      }
      history' := history + [source];
      buf' := "";
    } else {
      step := step + [Eval(line)];
      var r := js(history, line);
      if r.Raise? {
        step := step + [Printed(r.fault)];
      }
      history' := history + [line];
    }
  }

  // -----------------------------------------------------------------------
  // Properties of a session

  /** The commands the input spells out, independently of the JavaScript
      context: empty lines count for nothing, continuation lines lose
      their final backslash and join the next plain line, and a command
      still pending at end of input is dropped. */
  function Commands(lines: seq<string>, pending: string): seq<string>
    decreases |lines|
  {
    if lines == [] then []
    else
      var line := lines[0];
      if |line| == 0 then Commands(lines[1..], pending)
      else if IsContinuation(line) then Commands(lines[1..], pending + line[..|line| - 1])
      else [pending + line] + Commands(lines[1..], "")
  }

  /** The sources evaluated, in order. */
  function Sources(events: seq<ShellEvent>): seq<string> {
    if events == [] then []
    else (if events[0].Eval? then [events[0].source] else []) + Sources(events[1..])
  }

  lemma {:induction false} SourcesAppend(a: seq<ShellEvent>, b: seq<ShellEvent>)
    ensures Sources(a + b) == Sources(a) + Sources(b)
    decreases |a|
  {
    if a != [] {
      var x := if a[0].Eval? then [a[0].source] else [];
      assert (a + b)[0] == a[0] && (a + b)[1..] == a[1..] + b;
      SourcesAppend(a[1..], b);
      assert Sources(a + b) == x + (Sources(a[1..]) + Sources(b));
      assert x + (Sources(a[1..]) + Sources(b)) == (x + Sources(a[1..])) + Sources(b);
    } else {
      assert a + b == b;
    }
  }

  lemma SmallSources(p: string, x: string, f: Fault)
    ensures Sources([Prompt(p)]) == []
    ensures Sources([Prompt(p), Eval(x)]) == [x]
    ensures Sources([Prompt(p), Eval(x), Printed(f)]) == [x]
  {
    var none: seq<ShellEvent> := [];
    assert Sources(none) == [];
    assert [Printed(f)][1..] == none && [Eval(x)][1..] == none && [Prompt(p)][1..] == none;
    assert Sources([Printed(f)]) == [];
    assert Sources([Prompt(p)]) == [];
    assert Sources([Eval(x)]) == [x];
    assert [Eval(x), Printed(f)][1..] == [Printed(f)];
    assert Sources([Eval(x), Printed(f)]) == [x];
    assert [Prompt(p), Eval(x)][1..] == [Eval(x)];
    assert [Prompt(p), Eval(x), Printed(f)][1..] == [Eval(x), Printed(f)];
  }

  /** A transcript that reached end of input evaluated exactly `cmds`; one
      that ended on an uncaught exception evaluated a nonempty prefix of
      them, the failing command last. */
  predicate EvaluatesCommands(t: Transcript, cmds: seq<string>) {
    && (t.ending.EndOfInput? ==> Sources(t.events) == cmds)
    && (t.ending.Uncaught? ==> Sources(t.events) <= cmds && Sources(t.events) != [])
  }

  /** The shell evaluates exactly the commands of its input, in order,
      each once, when the session runs to end of input; when an exception
      escapes, it has evaluated the commands up to the failing one. */
  lemma {:induction false} SessionEvaluatesCommands(lines: seq<string>, i: nat, buf: string, history: seq<string>, js: JsContext)
    requires i <= |lines|
    ensures EvaluatesCommands(SessionFrom(lines, i, buf, history, js), Commands(lines[i..], buf))
    decreases |lines| - i, 2
  {
    if i == |lines| {
      SmallSources(PromptFor(buf), "", Fault(RuntimeError, Null));
      assert lines[i..] == [];
    } else if |lines[i]| == 0 || IsContinuation(lines[i]) {
      SkippedLineEvaluatesCommands(lines, i, buf, history, js);
    } else {
      EvaluatedLineEvaluatesCommands(lines, i, buf, history, js);
    }
  }

  /** The induction step for an empty or continuation line. */
  lemma {:induction false} SkippedLineEvaluatesCommands(lines: seq<string>, i: nat, buf: string, history: seq<string>, js: JsContext)
    requires i < |lines| && (|lines[i]| == 0 || IsContinuation(lines[i]))
    ensures EvaluatesCommands(SessionFrom(lines, i, buf, history, js), Commands(lines[i..], buf))
    decreases |lines| - i, 1
  {
    var line := lines[i];
    assert lines[i..][0] == line && lines[i..][1..] == lines[i + 1..];
    var next := if |line| == 0 then buf else buf + line[..|line| - 1];
    var rest := SessionFrom(lines, i + 1, next, history, js);
    assert SessionFrom(lines, i, buf, history, js) == Then([Prompt(PromptFor(buf))], rest);
    assert Commands(lines[i..], buf) == Commands(lines[i + 1..], next);
    SessionEvaluatesCommands(lines, i + 1, next, history, js);
    SmallSources(PromptFor(buf), "", Fault(RuntimeError, Null));
    SourcesAppend([Prompt(PromptFor(buf))], rest.events);
  }

  /** The induction step for a line that is evaluated. */
  lemma {:induction false} EvaluatedLineEvaluatesCommands(lines: seq<string>, i: nat, buf: string, history: seq<string>, js: JsContext)
    requires i < |lines| && |lines[i]| != 0 && !IsContinuation(lines[i])
    ensures EvaluatesCommands(SessionFrom(lines, i, buf, history, js), Commands(lines[i..], buf))
    decreases |lines| - i, 1
  {
    var line := lines[i];
    var source := buf + line;
    assert lines[i..][0] == line && lines[i..][1..] == lines[i + 1..];
    assert Commands(lines[i..], buf) == [source] + Commands(lines[i + 1..], "");
    var r := js(history, source);
    if |buf| > 0 {
      PendingCommandEvaluated(lines, i, buf, history, js);
      var head := [Prompt(" "), Eval(source)];
      SmallSources(" ", source, Fault(RuntimeError, Null));
      if r.Ok? {
        EvaluatedThen(lines, i, head, source, history, js);
      }
    } else {
      assert buf == [] && source == line;
      SingleLineEvaluated(lines, i, history, js);
      var head := [Prompt(">"), Eval(line)] + (if r.Raise? then [Printed(r.fault)] else []);
      SmallSources(">", line, if r.Raise? then r.fault else Fault(RuntimeError, Null));
      EvaluatedThen(lines, i, head, source, history, js);
    }
  }

  /** After events that evaluate `source` alone, the rest of the session
      evaluates the commands of the remaining lines. */
  lemma {:induction false} EvaluatedThen(lines: seq<string>, i: nat, head: seq<ShellEvent>, source: string, history: seq<string>, js: JsContext)
    requires i < |lines| && Sources(head) == [source]
    ensures EvaluatesCommands(Then(head, SessionFrom(lines, i + 1, "", history + [source], js)),
                              [source] + Commands(lines[i + 1..], ""))
    decreases |lines| - i, 0
  {
    var rest := SessionFrom(lines, i + 1, "", history + [source], js);
    SessionEvaluatesCommands(lines, i + 1, "", history + [source], js);
    SourcesAppend(head, rest.events);
  }

  /** An empty line only prompts again, with the buffer as it was. */
  lemma EmptyLineSkipped(lines: seq<string>, i: nat, buf: string, history: seq<string>, js: JsContext)
    requires i < |lines| && lines[i] == []
    ensures SessionFrom(lines, i, buf, history, js)
         == Then([Prompt(PromptFor(buf))], SessionFrom(lines, i + 1, buf, history, js))
  {
  }

  /** A continuation line adds itself, less the backslash, to the buffer
      and evaluates nothing. */
  lemma ContinuationBuffers(lines: seq<string>, i: nat, buf: string, history: seq<string>, js: JsContext)
    requires i < |lines| && IsContinuation(lines[i])
    ensures SessionFrom(lines, i, buf, history, js)
         == Then([Prompt(PromptFor(buf))], SessionFrom(lines, i + 1, buf + lines[i][..|lines[i]| - 1], history, js))
  {
  }

  /** A plain line completing a pending command evaluates buffer and line
      together once and empties the buffer; an exception from it ends the
      loop. */
  lemma PendingCommandEvaluated(lines: seq<string>, i: nat, buf: string, history: seq<string>, js: JsContext)
    requires i < |lines| && lines[i] != [] && !IsContinuation(lines[i]) && buf != []
    ensures var source := buf + lines[i];
      SessionFrom(lines, i, buf, history, js)
      == match js(history, source)
         case Raise(f) => Transcript([Prompt(" "), Eval(source)], Uncaught(f))
         case Ok(_) => Then([Prompt(" "), Eval(source)], SessionFrom(lines, i + 1, "", history + [source], js))
  {
  }

  /** A plain line with nothing pending is evaluated alone; an exception
      from it is printed and the loop goes on. */
  lemma SingleLineEvaluated(lines: seq<string>, i: nat, history: seq<string>, js: JsContext)
    requires i < |lines| && lines[i] != [] && !IsContinuation(lines[i])
    ensures var line := lines[i];
      SessionFrom(lines, i, "", history, js)
      == Then([Prompt(">"), Eval(line)] + (if js(history, line).Raise? then [Printed(js(history, line).fault)] else []),
              SessionFrom(lines, i + 1, "", history + [line], js))
  {
  }

  /** Only the evaluation of a pending command can end the loop early:
      with every line a single-line command, the loop always reaches end of
      input, whatever the context raises. */
  lemma {:induction false} SingleLinesReachEnd(lines: seq<string>, i: nat, history: seq<string>, js: JsContext)
    requires i <= |lines|
    requires forall k :: i <= k < |lines| ==> !IsContinuation(lines[k])
    ensures SessionFrom(lines, i, "", history, js).ending == EndOfInput
    decreases |lines| - i
  {
    if i < |lines| {
      var line := lines[i];
      SingleLinesReachEnd(lines, i + 1, history + [line], js);
      SingleLinesReachEnd(lines, i + 1, history, js);
    }
  }

  /** A pending command at end of input is dropped without evaluation. */
  lemma PendingDroppedAtEnd(lines: seq<string>, buf: string, history: seq<string>, js: JsContext)
    ensures SessionFrom(lines, |lines|, buf, history, js) == Transcript([Prompt(PromptFor(buf))], EndOfInput)
  {
  }
}
