/**
 * The `/compile` handler (server.js:37-128) with its I/O replaced by
 * inputs: the value of `code` in the request body, what the compiler
 * reported, and what the spawned program did.  The answer is the `output`
 * field of the JSON response, together with the file-system effects the
 * handler performs, in order.
 */
module Handler {
  import opened Wrappers
  import opened JsText
  import opened Capture
  import opened Rendering
  import opened Diagnostics

  const InvalidCode: string := "❌ Código inválido."
  const SpawnErrorPrefix: string := "❌ Error al ejecutar el programa: "

  /** The JSON value of `code` in the request body; `Undefined` when the field is absent. */
  datatype JsValue =
    | Undefined
    | Null
    | Bool(b: bool)
    | Number(x: real)
    | Str(s: string)
    | Array
    | Object

  /** JavaScript truthiness of a JSON value. */
  predicate Truthy(v: JsValue)
  {
    match v
    case Undefined => false
    case Null => false
    case Bool(b) => b
    case Number(x) => x != 0.0
    case Str(s) => s != []
    case Array => true
    case Object => true
  }

  /**
   * `if (!code || typeof code !== "string")` refuses the request; otherwise
   * `code.split("\n")`.  Exactly the non-empty strings are accepted, and the
   * lines join back into the submitted code.
   */
  function CodeLines(code: JsValue): (r: Option<seq<string>>)
    ensures r.Some? <==> code.Str? && code.s != []
    ensures r.Some? ==> |r.value| >= 1 && Join(r.value, '\n') == code.s
  {
    if !Truthy(code) || !code.Str? then
      None
    else
      JoinSplit(code.s, '\n');
      Some(Split(code.s, '\n'))
  }

  /** What `exec` of the compile command reported. */
  datatype CompileOutcome = Compiled | CompileFailed(stderr: string)

  /** What the spawned program did: an `error` event, or `close` after its data events. */
  datatype RunOutcome =
    | SpawnFailed(message: string)
    | Closed(events: seq<Event>, timedOut: bool, signal: Option<string>, exitCode: Option<int>)

  /** Writing the source file, and unlinking the source file and the binary. */
  datatype Effect = WriteSource(text: string) | RemoveArtifacts

  datatype Reply = Reply(effects: seq<Effect>, output: string)

  /** The answer of the handler, as a function of what it was given and what happened. */
  function Respond(code: JsValue, compile: CompileOutcome, run: RunOutcome): Reply
  {
    match CodeLines(code)
    case None => Reply([], InvalidCode)
    case Some(lines) =>
      var effects := [WriteSource(code.s), RemoveArtifacts];
      match compile
      case CompileFailed(stderr) => Reply(effects, Humanize(stderr, lines))
      case Compiled =>
        match run
        case SpawnFailed(message) => Reply(effects, SpawnErrorPrefix + message)
        case Closed(events, timedOut, signal, exitCode) =>
          var output := CapStdout(StdoutChunks(events));
          var error := Concat(StderrChunks(events));
          Reply(effects, Rendered(output, error, |output| >= MaxOutputLength,
                                  TerminationOf(timedOut, signal, exitCode)))
  }

  /** The handler itself: the capture object receives the events, the close handler renders. */
  method HandleCompile(code: JsValue, compile: CompileOutcome, run: RunOutcome)
    returns (reply: Reply)
    ensures reply == Respond(code, compile, run)
  {
    if !Truthy(code) || !code.Str? {
      return Reply([], InvalidCode);
    }
    var codeLines := Split(code.s, '\n');
    var effects := [WriteSource(code.s)];
    match compile
    case CompileFailed(stderr) =>
      var humanized := Humanize(stderr, codeLines);
      effects := effects + [RemoveArtifacts];
      reply := Reply(effects, humanized);
    case Compiled =>
      match run
      case SpawnFailed(message) =>
        effects := effects + [RemoveArtifacts];
        reply := Reply(effects, SpawnErrorPrefix + message);
      case Closed(events, timedOut, signal, exitCode) =>
        var capture := new OutputCapture();
        capture.Receive(events);
        assert [] + StdoutChunks(events) == StdoutChunks(events);
        assert [] + StderrChunks(events) == StderrChunks(events);
        effects := effects + [RemoveArtifacts];
        var resultado := Render(capture.output, capture.error, capture.truncated,
                                timedOut, signal, exitCode);
        reply := Reply(effects, resultado);
  }

  // ---------------------------------------------------------------------
  // what the handler promises
  // ---------------------------------------------------------------------

  /**
   * A request whose `code` is missing, empty or not a string gets exactly
   * "❌ Código inválido." and nothing is written; every other request writes
   * its source once and removes the artifacts once, whatever happens next.
   */
  lemma InvalidRequest(code: JsValue, compile: CompileOutcome, run: RunOutcome)
    ensures var reply := Respond(code, compile, run);
      (reply.effects == [] <==> !(code.Str? && code.s != [])) &&
      (reply.effects == [] ==> reply.output == InvalidCode) &&
      (reply.effects != [] ==> reply.effects == [WriteSource(code.s), RemoveArtifacts])
  {
  }

  /** A failed compilation answers only the humanized diagnostic; the raw stderr is not included. */
  lemma CompileFailureAnswer(code: string, stderr: string, run: RunOutcome)
    requires code != []
    ensures Respond(Str(code), CompileFailed(stderr), run).output == Humanize(stderr, Split(code, '\n'))
  {
  }

  /**
   * A program that exits with code 0 in time, writes nothing to stderr and
   * less than the cap of visible text to stdout gets its stdout back exactly.
   */
  lemma CleanRunAnswer(code: string, events: seq<Event>)
    requires code != []
    requires StderrChunks(events) == []
    requires |Concat(StdoutChunks(events))| < MaxOutputLength
    requires !IsBlank(Concat(StdoutChunks(events)))
    ensures Respond(Str(code), Compiled, Closed(events, false, None, Some(0))).output ==
      Concat(StdoutChunks(events))
  {
    var chunks := StdoutChunks(events);
    CapStdoutUnderCap(chunks);
    CleanRunEchoesStdout(Concat(chunks));
  }

  /** A run that closed is answered with the rendering of what the capture holds. */
  lemma ClosedRunAnswer(code: string, events: seq<Event>, timedOut: bool,
                        signal: Option<string>, exitCode: Option<int>)
    requires code != []
    ensures var output := CapStdout(StdoutChunks(events));
      Respond(Str(code), Compiled, Closed(events, timedOut, signal, exitCode)).output ==
      Rendered(output, Concat(StderrChunks(events)), |output| >= MaxOutputLength,
               TerminationOf(timedOut, signal, exitCode))
  {
  }

  /**
   * A program that writes at least the cap to stdout is answered with the
   * captured prefix of what it wrote (see `CapStdoutOverCap`), followed,
   * after the stderr block if any, by the truncation notice.
   */
  lemma TruncatedRunAnswer(code: string, events: seq<Event>, timedOut: bool,
                           signal: Option<string>, exitCode: Option<int>)
    requires code != []
    requires |Concat(StdoutChunks(events))| >= MaxOutputLength
    ensures var kept := CapStdout(StdoutChunks(events));
      var error := Concat(StderrChunks(events));
      var r := Respond(Str(code), Compiled, Closed(events, timedOut, signal, exitCode)).output;
      var at := |kept| + (if error != [] then |StderrHeader| + |error| else 0);
      |kept| >= MaxOutputLength && |kept| <= |Concat(StdoutChunks(events))| &&
      kept == Concat(StdoutChunks(events))[..|kept|] &&
      at + |TruncationNotice| <= |r| &&
      r[..|kept|] == kept && r[at..at + |TruncationNotice|] == TruncationNotice
  {
    var kept := CapStdout(StdoutChunks(events));
    CapStdoutOverCap(StdoutChunks(events));
    var error := Concat(StderrChunks(events));
    var t := TerminationOf(timedOut, signal, exitCode);
    ClosedRunAnswer(code, events, timedOut, signal, exitCode);
    Layout(kept, error, true, t);
  }
}
