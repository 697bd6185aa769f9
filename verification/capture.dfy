/**
 * The stdout/stderr accumulation of the running program (server.js:68-87).
 * Every `data` event on stdout is appended while the captured text is
 * still under the cap; once it reaches the cap the truncation flag is
 * raised and the text never changes again.  Stderr is appended in full.
 * Chunks are the already-decoded text of each event.
 */
module Capture {

  /** MAX_OUTPUT_LENGTH, 100 KB counted in characters. */
  const MaxOutputLength: nat := 100 * 1024

  /** All chunks, in order of arrival. */
  function Concat(chunks: seq<string>): string
  {
    if chunks == [] then [] else Concat(chunks[..|chunks| - 1]) + chunks[|chunks| - 1]
  }

  lemma {:induction false} ConcatAppend(xs: seq<string>, ys: seq<string>)
    ensures Concat(xs + ys) == Concat(xs) + Concat(ys)
  {
    if ys == [] {
      assert xs + ys == xs;
    } else {
      assert (xs + ys)[..|xs + ys| - 1] == xs + ys[..|ys| - 1];
      ConcatAppend(xs, ys[..|ys| - 1]);
    }
  }

  /** A longer run of chunks never yields less text. */
  lemma {:induction false} ConcatMonotone(chunks: seq<string>, j: nat, k: nat)
    requires j <= k <= |chunks|
    ensures |Concat(chunks[..j])| <= |Concat(chunks[..k])|
  {
    if j < k {
      assert chunks[..k][..k - 1] == chunks[..k - 1];
      ConcatMonotone(chunks, j, k - 1);
    }
  }

  /** One stdout `data` event (server.js:77-78): the chunk is kept only while under the cap. */
  function Feed(output: string, chunk: string): string
  {
    if |output| < MaxOutputLength then output + chunk else output
  }

  /** The captured stdout after the given chunks arrived, one `Feed` per chunk. */
  function CapStdout(chunks: seq<string>): string
  {
    if chunks == [] then [] else Feed(CapStdout(chunks[..|chunks| - 1]), chunks[|chunks| - 1])
  }

  /**
   * How many leading chunks the capture keeps: the first chunk count whose
   * concatenation reaches the cap, or all of them if none does.
   */
  function Kept(chunks: seq<string>): nat
  {
    KeptFrom(chunks, 0)
  }

  function KeptFrom(chunks: seq<string>, k: nat): (r: nat)
    requires k <= |chunks|
    ensures k <= r <= |chunks|
    decreases |chunks| - k
  {
    if k == |chunks| || |Concat(chunks[..k])| >= MaxOutputLength then k else KeptFrom(chunks, k + 1)
  }

  lemma {:induction false} KeptFromLeast(chunks: seq<string>, k: nat)
    requires k <= |chunks|
    requires forall j | 0 <= j < k :: |Concat(chunks[..j])| < MaxOutputLength
    ensures forall j | 0 <= j < KeptFrom(chunks, k) :: |Concat(chunks[..j])| < MaxOutputLength
    ensures KeptFrom(chunks, k) < |chunks| ==> |Concat(chunks[..KeptFrom(chunks, k)])| >= MaxOutputLength
    decreases |chunks| - k
  {
    if k < |chunks| && |Concat(chunks[..k])| < MaxOutputLength {
      KeptFromLeast(chunks, k + 1);
    }
  }

  /**
   * The captured stdout is the concatenation of a prefix of the chunks:
   * all chunks up to and including the first one with which the text
   * reached the cap, and none after it.
   */
  lemma {:induction false} CapStdoutIsKeptPrefix(chunks: seq<string>)
    ensures Kept(chunks) <= |chunks|
    ensures CapStdout(chunks) == Concat(chunks[..Kept(chunks)])
    ensures forall j | 0 <= j < Kept(chunks) :: |Concat(chunks[..j])| < MaxOutputLength
    ensures Kept(chunks) < |chunks| ==> |CapStdout(chunks)| >= MaxOutputLength
  {
    KeptFromLeast(chunks, 0);
    var k := Kept(chunks);
    if chunks != [] {
      var init := chunks[..|chunks| - 1];
      CapStdoutIsKeptPrefix(init);
      var ki := Kept(init);
      assert forall j | 0 <= j <= |init| :: init[..j] == chunks[..j];
      if ki < |init| {
        // the cap was reached inside `init`: the last chunk is dropped
        KeptFromLeast(init, 0);
        assert k == ki by {
          KeptUnique(chunks, k, ki);
        }
      } else {
        assert init[..ki] == init;
        if |Concat(init)| < MaxOutputLength {
          assert chunks[..|chunks|] == chunks;
          assert k == |chunks| by {
            forall j | 0 <= j < |chunks| ensures |Concat(chunks[..j])| < MaxOutputLength {
              ConcatMonotone(chunks, j, |chunks| - 1);
            }
            KeptFromAll(chunks, 0);
          }
        } else {
          assert k == ki by {
            KeptUnique(chunks, k, ki);
          }
        }
      }
    }
  }

  /** Two counts with the "least reaching the cap" property are the same count. */
  lemma KeptUnique(chunks: seq<string>, k: nat, m: nat)
    requires k <= |chunks| && m <= |chunks|
    requires forall j | 0 <= j < k :: |Concat(chunks[..j])| < MaxOutputLength
    requires k < |chunks| ==> |Concat(chunks[..k])| >= MaxOutputLength
    requires forall j | 0 <= j < m :: |Concat(chunks[..j])| < MaxOutputLength
    requires m < |chunks| ==> |Concat(chunks[..m])| >= MaxOutputLength
    ensures k == m
  {
  }

  lemma {:induction false} KeptFromAll(chunks: seq<string>, k: nat)
    requires k <= |chunks|
    requires forall j | k <= j < |chunks| :: |Concat(chunks[..j])| < MaxOutputLength
    ensures KeptFrom(chunks, k) == |chunks|
    decreases |chunks| - k
  {
    if k < |chunks| {
      KeptFromAll(chunks, k + 1);
    }
  }

  /**
   * Bound: the captured text exceeds the cap by less than the last chunk
   * it accepted.
   */
  lemma CapStdoutBound(chunks: seq<string>)
    ensures Kept(chunks) == 0 ==> CapStdout(chunks) == []
    ensures Kept(chunks) > 0 ==>
      |CapStdout(chunks)| < MaxOutputLength + |chunks[Kept(chunks) - 1]|
  {
    CapStdoutIsKeptPrefix(chunks);
    var k := Kept(chunks);
    if k > 0 {
      assert chunks[..k][..k - 1] == chunks[..k - 1];
    }
  }

  /** Once the cap is reached, later chunks leave the captured text as it is. */
  lemma {:induction false} CapStdoutFrozen(chunks: seq<string>, later: seq<string>)
    requires |CapStdout(chunks)| >= MaxOutputLength
    ensures CapStdout(chunks + later) == CapStdout(chunks)
  {
    if later != [] {
      var all := chunks + later;
      assert all[..|all| - 1] == chunks + later[..|later| - 1];
      CapStdoutFrozen(chunks, later[..|later| - 1]);
    } else {
      assert chunks + later == chunks;
    }
  }

  /**
   * When everything received reaches the cap, the captured text reaches it
   * too, and is a prefix of everything received that overshoots the cap by
   * less than the last chunk it kept.
   */
  lemma CapStdoutOverCap(chunks: seq<string>)
    requires |Concat(chunks)| >= MaxOutputLength
    ensures var kept := CapStdout(chunks);
      MaxOutputLength <= |kept| <= |Concat(chunks)| && kept == Concat(chunks)[..|kept|] &&
      0 < Kept(chunks) && |kept| < MaxOutputLength + |chunks[Kept(chunks) - 1]|
  {
    var all := Concat(chunks);
    var kept := CapStdout(chunks);
    var k := Kept(chunks);
    CapStdoutIsKeptPrefix(chunks);
    if k == |chunks| {
      assert chunks[..k] == chunks;
    }
    CapStdoutBound(chunks);
    assert chunks == chunks[..k] + chunks[k..];
    ConcatAppend(chunks[..k], chunks[k..]);
    assert all[..|kept|] == kept;
  }

  /** A program whose whole stdout stays under the cap loses nothing. */
  lemma {:induction false} CapStdoutUnderCap(chunks: seq<string>)
    requires |Concat(chunks)| < MaxOutputLength
    ensures CapStdout(chunks) == Concat(chunks)
  {
    if chunks != [] {
      var init := chunks[..|chunks| - 1];
      CapStdoutUnderCap(init);
    }
  }

  // ---------------------------------------------------------------------
  // the events of the child process
  // ---------------------------------------------------------------------

  /** A `data` event on the child's stdout or stderr, decoded. */
  datatype Event = Stdout(chunk: string) | Stderr(chunk: string)

  function StdoutChunks(events: seq<Event>): seq<string>
  {
    if events == [] then
      []
    else
      var last := events[|events| - 1];
      StdoutChunks(events[..|events| - 1]) + (if last.Stdout? then [last.chunk] else [])
  }

  function StderrChunks(events: seq<Event>): seq<string>
  {
    if events == [] then
      []
    else
      var last := events[|events| - 1];
      StderrChunks(events[..|events| - 1]) + (if last.Stderr? then [last.chunk] else [])
  }

  /**
   * The three variables `output`, `error` and `outputTruncado` of the
   * handler, with the chunks received so far as ghost history.
   */
  class OutputCapture {
    var output: string
    var error: string
    var truncated: bool
    ghost var stdoutChunks: seq<string>
    ghost var stderrChunks: seq<string>

    /** The flag is raised exactly when the text reached the cap. */
    ghost predicate Valid()
      reads this
    {
      output == CapStdout(stdoutChunks) &&
      error == Concat(stderrChunks) &&
      truncated == (|output| >= MaxOutputLength)
    }

    constructor ()
      ensures Valid()
      ensures stdoutChunks == [] && stderrChunks == []
      ensures output == [] && error == [] && !truncated
    {
      output, error, truncated := [], [], false;
      stdoutChunks, stderrChunks := [], [];
    }

    /** `proceso.stdout.on("data", ...)` */
    method OnStdout(chunk: string)
      requires Valid()
      modifies this
      ensures Valid()
      ensures stdoutChunks == old(stdoutChunks) + [chunk] && stderrChunks == old(stderrChunks)
      ensures old(truncated) ==> output == old(output) && truncated
      ensures !old(truncated) ==> output == old(output) + chunk
      ensures error == old(error)
    {
      if |output| < MaxOutputLength {
        output := output + chunk;
        if |output| >= MaxOutputLength {
          truncated := true;
        }
      }
      assert (stdoutChunks + [chunk])[..|stdoutChunks|] == stdoutChunks;
      stdoutChunks := stdoutChunks + [chunk];
    }

    /** `proceso.stderr.on("data", ...)` */
    method OnStderr(chunk: string)
      requires Valid()
      modifies this
      ensures Valid()
      ensures stderrChunks == old(stderrChunks) + [chunk] && stdoutChunks == old(stdoutChunks)
      ensures error == old(error) + chunk
      ensures output == old(output) && truncated == old(truncated)
    {
      error := error + chunk;
      assert (stderrChunks + [chunk])[..|stderrChunks|] == stderrChunks;
      stderrChunks := stderrChunks + [chunk];
    }

    /** Delivers the events in the order they arrive. */
    method Receive(events: seq<Event>)
      requires Valid()
      modifies this
      ensures Valid()
      ensures stdoutChunks == old(stdoutChunks) + StdoutChunks(events)
      ensures stderrChunks == old(stderrChunks) + StderrChunks(events)
    {
      for n := 0 to |events|
        invariant Valid()
        invariant stdoutChunks == old(stdoutChunks) + StdoutChunks(events[..n])
        invariant stderrChunks == old(stderrChunks) + StderrChunks(events[..n])
      {
        assert events[..n + 1][..n] == events[..n];
        match events[n]
        case Stdout(c) => OnStdout(c);
        case Stderr(c) => OnStderr(c);
      }
      assert events[..|events|] == events;
    }
  }
}
