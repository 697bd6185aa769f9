/**
 * The text returned when the child process closes (server.js:98-117):
 * captured stdout, the stderr block, the truncation notice, at most one
 * termination notice, and the fallback for a blank result.  Whether the
 * deadline fired, the signal and the exit code are inputs here; the timer
 * and the kill are not modelled.
 */
module Rendering {
  import opened Wrappers
  import opened JsText

  const StderrHeader: string := "\n⚠️ STDERR:\n"
  const TruncationNotice: string := "\n\n⚠️ Salida truncada (más de 100 KB)"
  // Split in two: Dafny does not look inside a literal this long, so the
  // emoji that makes the notice visible sits in a literal of its own.
  const TimeoutNotice: string := "\n\n⏱️" + " Proceso detenido por exceder el tiempo límite (5s)"
  const SignalPrefix: string := "\n\n💥 Proceso terminado por señal: "
  const ExitPrefix: string := "\n\n💥 Error en tiempo de ejecución (código "
  const NoOutputMessage: string := "⚠️ El programa no produjo salida."

  /** How the run ended, as far as the notice is concerned. */
  datatype Termination =
    | TimedOut
    | Signalled(signal: string)
    | Failed(code: Option<int>)
    | Clean

  /** `if (signal)`: a signal name is truthy when it is present and not empty. */
  predicate HasSignal(signal: Option<string>)
  {
    signal.Some? && signal.value != []
  }

  /**
   * Which notice the close handler appends: the deadline first, then a
   * signal, then an exit code other than 0 (`null` counts as other than 0).
   */
  function TerminationOf(timedOut: bool, signal: Option<string>, code: Option<int>): (t: Termination)
    ensures t.TimedOut? <==> timedOut
    ensures t.Signalled? <==> !timedOut && HasSignal(signal)
    ensures t.Failed? <==> !timedOut && !HasSignal(signal) && code != Some(0)
    ensures t.Clean? <==> !timedOut && !HasSignal(signal) && code == Some(0)
    ensures t.Signalled? ==> t.signal == signal.value
    ensures t.Failed? ==> t.code == code
  {
    if timedOut then TimedOut
    else if HasSignal(signal) then Signalled(signal.value)
    else if code != Some(0) then Failed(code)
    else Clean
  }

  /** `${code}` for the exit code: `null` or the integer. */
  function CodeText(code: Option<int>): string
  {
    match code
    case None => "null"
    case Some(c) => IntText(c)
  }

  function NoticeText(t: Termination): string
  {
    match t
    case TimedOut => TimeoutNotice
    case Signalled(s) => SignalPrefix + s
    case Failed(c) => ExitPrefix + CodeText(c) + ")"
    case Clean => []
  }

  function StderrBlock(error: string): string
  {
    if error != [] then StderrHeader + error else []
  }

  function TruncationBlock(truncated: bool): string
  {
    if truncated then TruncationNotice else []
  }

  /** The text before the blank check: stdout, stderr block, truncation notice, termination notice. */
  function Composed(output: string, error: string, truncated: bool, t: Termination): string
  {
    output + StderrBlock(error) + TruncationBlock(truncated) + NoticeText(t)
  }

  /** The `output` field of the response for a run that closed. */
  function Rendered(output: string, error: string, truncated: bool, t: Termination): string
  {
    if IsBlank(Composed(output, error, truncated, t)) then NoOutputMessage
    else Composed(output, error, truncated, t)
  }

  /** The close handler, building `resultado` step by step. */
  method Render(output: string, error: string, truncated: bool,
                timedOut: bool, signal: Option<string>, code: Option<int>)
    returns (resultado: string)
    ensures resultado == Rendered(output, error, truncated, TerminationOf(timedOut, signal, code))
    ensures !IsBlank(resultado)
  {
    resultado := [];
    if output != [] {
      resultado := resultado + output;
    }
    assert resultado == output;
    if error != [] {
      resultado := resultado + StderrHeader + error;
    }
    assert resultado == output + StderrBlock(error);
    if truncated {
      resultado := resultado + TruncationNotice;
    }
    assert resultado == output + StderrBlock(error) + TruncationBlock(truncated);
    resultado := AppendNotice(resultado, timedOut, signal, code);
    resultado := NoOutputFallback(resultado);
  }

  /** The `if (timedOut) … else if (signal) … else if (code !== 0)` chain. */
  method AppendNotice(prefix: string, timedOut: bool, signal: Option<string>, code: Option<int>)
    returns (resultado: string)
    ensures resultado == prefix + NoticeText(TerminationOf(timedOut, signal, code))
  {
    resultado := prefix;
    if timedOut {
      resultado := resultado + TimeoutNotice;
    } else if HasSignal(signal) {
      resultado := resultado + (SignalPrefix + signal.value);
    } else if code != Some(0) {
      resultado := resultado + (ExitPrefix + CodeText(code) + ")");
    }
  }

  /** `if (!resultado.trim()) resultado = "⚠️ El programa no produjo salida.";` */
  method NoOutputFallback(composed: string) returns (resultado: string)
    ensures resultado == (if IsBlank(composed) then NoOutputMessage else composed)
    ensures !IsBlank(resultado)
  {
    resultado := composed;
    TrimEmptyIffBlank(resultado);
    if Trim(resultado) == [] {
      resultado := NoOutputMessage;
      assert resultado[0] == '⚠';
    }
  }

  // ---------------------------------------------------------------------
  // what the rendered text promises
  // ---------------------------------------------------------------------

  /** The response text is never blank. */
  lemma RenderedNotBlank(output: string, error: string, truncated: bool, t: Termination)
    ensures !IsBlank(Rendered(output, error, truncated, t))
  {
    assert NoOutputMessage[0] == '⚠';
  }

  /** The stderr block, the truncation notice and every termination notice hold visible text. */
  lemma NoticesVisible(error: string, truncated: bool, t: Termination)
    ensures error != [] ==> !IsBlank(StderrBlock(error))
    ensures truncated ==> !IsBlank(TruncationBlock(truncated))
    ensures !t.Clean? ==> !IsBlank(NoticeText(t))
  {
    if error != [] {
      assert StderrBlock(error)[1] == StderrHeader[1] == '⚠';
      VisibleAt(StderrBlock(error), 1);
    }
    if truncated {
      assert TruncationNotice[2] == '⚠';
      VisibleAt(TruncationNotice, 2);
    }
    match t
    case TimedOut =>
      assert TimeoutNotice[2] == '⏱';
      VisibleAt(TimeoutNotice, 2);
    case Signalled(s) =>
      assert (SignalPrefix + s)[2] == SignalPrefix[2] == '💥';
      VisibleAt(SignalPrefix + s, 2);
    case Failed(c) =>
      assert (ExitPrefix + CodeText(c) + ")")[2] == ExitPrefix[2] == '💥';
      VisibleAt(ExitPrefix + CodeText(c) + ")", 2);
    case Clean =>
  }

  /**
   * The fallback message replaces the text exactly when stdout is blank,
   * stderr is empty, nothing was truncated and the run ended cleanly.
   */
  lemma {:induction false} FallbackIff(output: string, error: string, truncated: bool, t: Termination)
    ensures IsBlank(Composed(output, error, truncated, t)) <==>
      IsBlank(output) && error == [] && !truncated && t.Clean?
  {
    var s, b, n := StderrBlock(error), TruncationBlock(truncated), NoticeText(t);
    NoticesVisible(error, truncated, t);
    BlankConcat(output + s + b, n);
    BlankConcat(output + s, b);
    BlankConcat(output, s);
    assert error == [] ==> s == [];
    assert !truncated ==> b == [];
    assert t.Clean? ==> n == [];
    assert output + [] + [] + [] == output;
  }

  /**
   * When there is anything to show, the text starts with the captured
   * stdout; right after it comes the stderr block when stderr is not empty,
   * then the truncation notice when the flag is set, then the one
   * termination notice, which ends the text.
   */
  lemma Layout(output: string, error: string, truncated: bool, t: Termination)
    requires !IsBlank(output) || error != [] || truncated || !t.Clean?
    ensures var r := Rendered(output, error, truncated, t);
      var afterStderr := |output| + (if error != [] then |StderrHeader| + |error| else 0);
      var afterTrunc := afterStderr + (if truncated then |TruncationNotice| else 0);
      |r| == afterTrunc + |NoticeText(t)| &&
      r[..|output|] == output &&
      (error != [] ==> r[|output|..afterStderr] == StderrHeader + error) &&
      (truncated ==> r[afterStderr..afterTrunc] == TruncationNotice) &&
      r[afterTrunc..] == NoticeText(t)
  {
    FallbackIff(output, error, truncated, t);
    var s, b, n := StderrBlock(error), TruncationBlock(truncated), NoticeText(t);
    var r := output + s + b + n;
    assert r[..|output|] == output;
    assert r[|output|..|output| + |s|] == s;
    assert r[|output| + |s|..|output| + |s| + |b|] == b;
    assert r[|output| + |s| + |b|..] == n;
  }

  /** With the deadline passed, the text ends with the timeout notice whatever the signal and exit code. */
  lemma TimeoutWins(output: string, error: string, truncated: bool, signal: Option<string>, code: Option<int>)
    ensures var r := Rendered(output, error, truncated, TerminationOf(true, signal, code));
      |r| >= |TimeoutNotice| && r[|r| - |TimeoutNotice|..] == TimeoutNotice
  {
    var t := TerminationOf(true, signal, code);
    Layout(output, error, truncated, t);
  }

  /** A run that exited with code 0, wrote visible stdout and nothing else, answers exactly that stdout. */
  lemma CleanRunEchoesStdout(output: string)
    requires !IsBlank(output)
    ensures Rendered(output, [], false, TerminationOf(false, None, Some(0))) == output
  {
    assert TerminationOf(false, None, Some(0)) == Clean;
    assert Composed(output, [], false, Clean) == output + [] + [] + [] == output;
  }
}
