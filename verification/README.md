# ServidorTareas `/compile` handler, modelled in Dafny

`server.js` is an Express handler. It takes C++ source in `code`, compiles it
with g++, runs the binary and returns `{ output }`. Almost all of it is I/O. This
project models the four pieces that compute something. Everything else enters as
an input.

- **Request check** (`Handler.CodeLines`): the request is refused with
  "❌ Código inválido." unless `code` is a non-empty string. An accepted `code` is
  split on `"\n"` into `codeLines`.
- **Output capture** (`Capture.OutputCapture`): a class with the handler's
  `output`, `error` and `outputTruncado` variables. `OnStdout` appends a chunk
  only while `output` is shorter than `MAX_OUTPUT_LENGTH` (100·1024). It raises
  the flag once that length is reached. `OnStderr` appends without a cap.
  `Receive` delivers a sequence of events. Ghost fields record the chunks
  received, and `Valid()` ties the fields to the functions `CapStdout` and
  `Concat` of those chunks.
- **Result rendering** (`Rendering.Render`): the `close` handler. It builds
  `resultado` in this order: stdout, the `STDERR` block, the truncation notice,
  then one termination notice (timeout before signal before non-zero exit code).
  A blank result is replaced by "⚠️ El programa no produjo salida.". The
  timed-out flag, the signal and the exit code are inputs.
- **Diagnostic classifier** (`Diagnostics.Humanize`, `Diagnostics.FormatError`):
  `humanizarErrores` and `formatearError`. Only the first stderr line that
  contains `error:` is used. Its line number comes from the leftmost match of
  `/:(\d+):\d+:/`. The source line it names is quoted. An ordered cascade of
  seven patterns picks the message and the hint. A line that no pattern matches
  still gets the generic "Error de sintaxis." report.
- **The handler** (`Handler.HandleCompile`): an imperative method that takes the
  `code` value, what the compiler reported and what the program did. It drives
  an `OutputCapture` and renders the result. It is proved equal to the function
  `Handler.Respond`, and the end-to-end lemmas are stated about that function.
  The reply also lists the file-system effects in order: writing the source,
  then removing the artifacts.

Strings are sequences of Unicode characters. `JsText` defines the JavaScript
behaviour the code uses: `trim` with ECMAScript's white-space set, `split`,
`includes`, the regular-expression `.` (anything but a line terminator), and
decimal rendering.

### Behaviour of the code worth knowing

- An error line that matches none of the seven patterns still gets the full
  report with "Error de sintaxis." (server.js:170). A failed compilation is
  answered with the humanized text alone; the raw compiler output is not
  returned (server.js:59-61).
- There is no special message for undeclared standard-library identifiers such
  as `cout`: every undeclared identifier gets "Identificador '…' no declarado."
  (server.js:165-167).
- A line number past the end of the code is still interpolated as
  `codeLines[n-1]`, which prints `undefined`; a line without a location prints
  `Línea null` and an empty code line (server.js:138-139, 180-184;
  `Diagnostics.QuotedCode`).
- The truncation notice and the termination notice are independent: a run can
  be both truncated and stopped by the deadline, a signal or an exit code other
  than 0, and then both notices appear (server.js:102-113).
- The "no output" message replaces the text whenever the composed text is
  blank, for example when stdout holds only white space and the run ended
  cleanly, not only when neither stream produced any bytes (server.js:115-117).

### Observation

g++ reports a stray `}` as "expected declaration before ‘}’ token". That line
already matches the second pattern, `expected.*\}`. So, unless the line also
matches `expected.*;`, it gets "Falta cerrar una llave }." and never the
extra-brace message the cascade has for it (`Diagnostics.ExtraBraceMessageShadowed`).
The pattern `expected declaration before` can still match lines without `;`, `}`
or `)` after `expected`. So this is recorded as an observation, not as a bug.

## Model

| member | source | states |
|---|---|---|
| `Handler.CodeLines` | server.js:40-44 | the request is accepted exactly when `code` is a non-empty string; the lines it is split into are never empty and join back into the code |
| `Handler.InvalidRequest` | server.js:40-50 | a missing, empty or non-string `code` yields exactly "❌ Código inválido." with no file written; every other request writes the source and then removes the artifacts, on every path that ends in `close` or `error` |
| `Handler.HandleCompile` | server.js:37-128 | the imperative handler (capture object, events, rendering, compile and spawn failures) returns exactly what `Respond` specifies |
| `Handler.CompileFailureAnswer` | server.js:57-62 | a failed compilation is answered with the humanized diagnostic alone, without the raw stderr and whatever the program would have done |
| `Handler.ClosedRunAnswer` | server.js:94-119 | a run that closed is answered with the rendering of the captured stdout, the full stderr, the cap flag and the termination |
| `Handler.CleanRunAnswer` | server.js:76-119 | a program that exits 0 in time, writes nothing to stderr and less than the cap of visible text to stdout gets exactly its stdout back |
| `Handler.TruncatedRunAnswer` | server.js:76-105 | a program that writes at least the cap gets, first, a prefix of what it wrote to stdout that is at least the cap long, and the truncation notice right after the stderr block |
| `Capture.OutputCapture.constructor` | server.js:68-70 | the capture starts empty, with the flag down |
| `Capture.OutputCapture.OnStdout` | server.js:76-83 | a chunk is appended only while the flag is down; once it is up, `output` never changes; the flag is up exactly when `output` has reached the cap |
| `Capture.OutputCapture.OnStderr` | server.js:85-87 | stderr chunks are appended with no cap; stdout and the flag are left alone |
| `Capture.OutputCapture.Receive` | server.js:76-87 | after the events, stdout is `CapStdout` of the stdout chunks and stderr is the concatenation of the stderr chunks, in arrival order |
| `Capture.CapStdoutIsKeptPrefix` | server.js:76-83 | the captured stdout is the concatenation of a prefix of the chunks: every chunk up to the first one whose arrival reached the cap, and none after it |
| `Capture.CapStdoutBound` | server.js:77-79 | the captured stdout is shorter than the cap plus the last chunk it kept, and empty when it kept none |
| `Capture.CapStdoutFrozen` | server.js:77 | once the cap is reached, further chunks leave the captured stdout unchanged |
| `Capture.CapStdoutUnderCap` | server.js:76-83 | when all stdout stays under the cap, nothing is lost |
| `Capture.CapStdoutOverCap` | server.js:76-83 | when all stdout reaches the cap, the capture reaches it too, is a prefix of what was written, and overshoots by less than the last kept chunk |
| `Rendering.TerminationOf` | server.js:107-113 | exactly one termination case holds: timeout if the deadline passed; else signal if one was given; else exit failure if the code is not 0 (null included); else clean |
| `Rendering.Render` | server.js:98-117 | building `resultado` step by step gives `Rendered` of the inputs, and the result is never blank |
| `Rendering.AppendNotice` | server.js:107-113 | the `else if` chain appends exactly the notice of the termination case, and nothing for a clean run |
| `Rendering.NoOutputFallback` | server.js:115-117 | a blank text is replaced by the no-output message, any other is kept, and the result is never blank |
| `Rendering.RenderedNotBlank` | server.js:115-117 | the response text is never blank |
| `Rendering.NoticesVisible` | server.js:101-113 | the stderr block, the truncation notice and each termination notice contain a visible character |
| `Rendering.FallbackIff` | server.js:98-117 | the composed text is blank, and so replaced by the no-output message, exactly when stdout is blank, stderr is empty, there is no truncation and the run ended cleanly |
| `Rendering.Layout` | server.js:98-113 | a non-blank result starts with stdout, then the stderr block if stderr is not empty, then the truncation notice if flagged, and ends with the single termination notice |
| `Rendering.TimeoutWins` | server.js:107-108 | when the deadline passed, the text ends with the timeout notice whatever the signal and exit code |
| `Rendering.CleanRunEchoesStdout` | server.js:98-117 | visible stdout alone with exit code 0 is returned unchanged |
| `JsText.TrimEmptyIffBlank` | server.js:115 | `!s.trim()` holds exactly for strings made only of ECMAScript white space |
| `JsText.TrimStart` | server.js:188 | the result is the longest suffix that starts with a non-space character, and what is removed is blank |
| `JsText.TrimEnd` | server.js:188 | the result is the longest prefix that ends with a non-space character, and what is removed is blank |
| `JsText.TrimSurrounded` | server.js:177-188 | trimming blank text around a text that starts and ends visibly gives that text back |
| `JsText.JoinSplit` | server.js:44 | joining the pieces of `split("\n")` gives the original text back |
| `JsText.SplitJoin` | server.js:132 | splitting newline-free pieces that were joined gives the pieces back |
| `JsText.SplitAround` | server.js:132 | the lines of `a + "\n" + b` are the lines of `a` followed by the lines of `b` |
| `JsText.ParseDecimal` | server.js:138 | `parseInt` of a rendered number gives the number back |
| `JsText.DecimalDigits` | server.js:112 | `${n}` of a non-negative integer is a non-empty digit string with no leading zero |
| `Diagnostics.DigitRun` | server.js:137 | measures the maximal run of digits at an index |
| `Diagnostics.PatternGivesLineRef` | server.js:137-138 | where `/:(\d+):\d+:/` matches, the scan reads the value of the captured digits |
| `Diagnostics.LocationAt` | server.js:137-138 | a location `:digits:digits:` right after a prefix is where the pattern matches, with the first digits as its group |
| `Diagnostics.LineRefAtIsPattern` | server.js:137-138 | the scan at one index finds a number exactly when `/:(\d+):\d+:/` matches there, and the number is the value of the captured group |
| `Diagnostics.LineRefFromLeftmost` | server.js:137-138 | the line number comes from the leftmost index where the pattern matches, and there is none when it matches nowhere |
| `Diagnostics.GccLocation` | server.js:137-139 | a g++ location `file:line:column:` with a colon-free file name gives that line number |
| `Diagnostics.FormatErrorLayout` | server.js:176-189 | with a hint that ends visibly, the trimmed template is heading, `Línea` with the number, message, quoted code and hint, in that order |
| `Diagnostics.EmbedMatches` | server.js:141-167 | a literal or `expected.*c` match inside a text is still a match once other text surrounds it |
| `Diagnostics.FirstMatch` | server.js:141-168 | returns the first rule the line matches, and nothing exactly when it matches none |
| `Diagnostics.ClassifyFirstWins` | server.js:141-170 | rule number k of the cascade is chosen exactly when the line matches it and none of the earlier rules |
| `Diagnostics.SemicolonBeforePrimaryExpression` | server.js:141-159 | any line holding g++'s "expected primary-expression before ‘;’ token" matches both `expected.*;` and `expected primary-expression`, and gets the semicolon rule |
| `Diagnostics.ExtraBraceMessageShadowed` | server.js:141-163 | a line holding g++'s "expected declaration before ‘}’ token" matches the extra-brace rule, yet gets the unclosed-brace rule unless it also matches `expected.*;` |
| `Diagnostics.LazyEnd` | server.js:166 | the lazy `.+?` stops at the least end where "’ was not declared" follows, and fails at a line terminator |
| `Diagnostics.QuoteFrom` | server.js:166 | finds the leftmost opening quote at which `/‘(.+?)’ was not declared/` matches, with the least end there |
| `Diagnostics.UndeclaredNameRead` | server.js:165-167 | the identifier in "‘name’ was not declared" is read back whole |
| `Diagnostics.HintEndsVisible` | server.js:142-170 | every hint ends with a visible character |
| `Diagnostics.DescribeIsReport` | server.js:137-170 | every error line yields the full report with heading, line, message, quoted code and hint, even when no rule matches |
| `Diagnostics.HumanizeFirstErrorLine` | server.js:132-136 | the answer is the diagnostic of the first stderr line, split at "\n", that contains "error:" |
| `Diagnostics.FirstErrorLineAt` | server.js:134-135 | the loop stops at line k when it is the first line containing "error:" |
| `Diagnostics.FirstErrorLineNone` | server.js:134-135 | the loop runs off the end of the lines exactly when no line contains "error:" |
| `Diagnostics.HumanizeFallbackIff` | server.js:131-173 | `humanizarErrores` returns "❗ Error de compilación." exactly when no stderr line contains "error:" |
| `Diagnostics.HumanizeIgnoresLaterLines` | server.js:132-171 | lines after the first error line never change the answer |
| `Diagnostics.HumanizeSkipsNoise` | server.js:132-135 | lines without "error:" before it never change the answer |
| `Diagnostics.SemicolonLine` | server.js:134-142 | g++'s missing-semicolon line holds no newline, contains "error:", names its line number and takes the semicolon rule |
| `Diagnostics.HumanizeQuotes` | server.js:131-142 | a one-line stderr naming a line of the code is answered with the report that quotes exactly that line |
| `Diagnostics.MissingSemicolonScenario` | server.js:131-142 | g++'s "expected ‘,’ or ‘;’" error on line n gives the semicolon report quoting line n |

## Left out

- The Express app, CORS, JSON body parsing, `/health` and `listen` (server.js:1-24, 196-207) are HTTP framework glue. The `code` field enters as a JSON value.
- Creating the scratch directory, the file paths from `randomUUID`, `writeFileSync` and `fs.unlink` are file-system I/O (server.js:30-34, 46-50, 192-194). The model records only the two effects, writing the source and removing the artifacts, as `Handler.Effect` values. Unlink errors are swallowed by the source and do not appear.
- The g++ command, its `ulimit` limits and `exec` (server.js:52-57) are a subprocess. The compiler's verdict and stderr are the input `CompileOutcome`.
- `spawn`, and writing `input` plus a newline to the child's stdin (server.js:64-74), are subprocess I/O. The program's behaviour is the input `RunOutcome`: its data events, then `close` or `error`.
- The 5-second timer and `kill("SIGTERM")` (server.js:89-92) are not modelled. Whether the deadline fired is an input.
- A run that never ends is not modelled. The model assumes every run ends in `close` or `error`. server.js:91 sends one SIGTERM and never escalates. A program that ignores SIGTERM, or leaves a child holding its stdout open, never emits `close` (server.js:94). On that path the source never answers and never removes the artifacts, and `RunOutcome` has no case for it.
- The order between the `close` and `error` events, and whether `res.json` and the cleanup run more than once (server.js:94-126), depend on Node's event loop. The model takes exactly one of the two outcomes.
- `data.toString()` decoding and JavaScript's UTF-16 `length` are not modelled. Chunks are already-decoded character sequences, and lengths count characters.
- Capture.OutputCapture.OnStdout: the cap is counted in characters, not UTF-16 code units.
- `parseInt` loses precision beyond 2^53. The line number is an unbounded natural number.
