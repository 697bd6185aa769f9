/**
 * The pedagogical rewriting of g++ diagnostics, `humanizarErrores` and
 * `formatearError` (server.js:131-189).  Only the first stderr line that
 * holds "error:" is looked at; its line reference is read, the source line
 * it points to is quoted, and an ordered cascade of patterns chooses the
 * message and the hint.
 */
module Diagnostics {
  import opened Wrappers
  import opened JsText

  const ErrorMarker: string := "error:"
  /** The answer when no stderr line holds the marker. */
  const NoDiagnosis: string := "❗ Error de compilación."
  /** First line of every formatted diagnostic. */
  const Heading: string := "🚫 Error de compilación"

  // ---------------------------------------------------------------------
  // the line reference: /:(\d+):\d+:/
  // ---------------------------------------------------------------------

  /** Length of the run of digits that starts at index `i`. */
  function DigitRun(s: string, i: nat): (n: nat)
    requires i <= |s|
    ensures i + n <= |s|
    ensures AllDigits(s[i..i + n])
    ensures i + n == |s| || !IsDigit(s[i + n])
    decreases |s| - i
  {
    if i < |s| && IsDigit(s[i]) then
      var n := DigitRun(s, i + 1);
      assert s[i..i + 1 + n] == [s[i]] + s[i + 1..i + 1 + n];
      1 + n
    else
      0
  }

  /**
   * The regular expression `/:(\d+):\d+:/` matches at index `i`, its group
   * holding `a` digits and the second run `b` digits.
   */
  predicate PatternAt(s: string, i: nat, a: nat, b: nat)
  {
    a > 0 && b > 0 && i + a + b + 3 <= |s| &&
    s[i] == ':' && AllDigits(s[i + 1..i + 1 + a]) && s[i + 1 + a] == ':' &&
    AllDigits(s[i + 2 + a..i + 2 + a + b]) && s[i + 2 + a + b] == ':'
  }

  /** The number the pattern captures at index `i`, if it matches there. */
  function LineRefAt(s: string, i: nat): Option<nat>
    requires i <= |s|
  {
    if i < |s| && s[i] == ':' then
      var a := DigitRun(s, i + 1);
      if a > 0 && i + 1 + a < |s| && s[i + 1 + a] == ':' then
        var b := DigitRun(s, i + 2 + a);
        if b > 0 && i + 2 + a + b < |s| && s[i + 2 + a + b] == ':' then
          Some(ParseDigits(s[i + 1..i + 1 + a]))
        else
          None
      else
        None
    else
      None
  }

  /** A maximal run of digits is the one `DigitRun` measures. */
  lemma {:induction false} DigitRunExact(s: string, i: nat, n: nat)
    requires i + n <= |s| && AllDigits(s[i..i + n])
    requires i + n == |s| || !IsDigit(s[i + n])
    ensures DigitRun(s, i) == n
    decreases n
  {
    if n > 0 {
      assert s[i] == s[i..i + n][0];
      assert s[i + 1..i + n] == s[i..i + n][1..];
      DigitRunExact(s, i + 1, n - 1);
    }
  }

  /** Where the pattern matches, the scan reads the number of its group. */
  lemma PatternGivesLineRef(s: string, i: nat, a: nat, b: nat)
    requires PatternAt(s, i, a, b)
    ensures LineRefAt(s, i) == Some(ParseDigits(s[i + 1..i + 1 + a]))
  {
    assert !IsDigit(s[i + 1 + a]);
    DigitRunExact(s, i + 1, a);
    assert !IsDigit(s[i + 2 + a + b]);
    DigitRunExact(s, i + 2 + a, b);
  }

  /**
   * The scan at one index agrees with the regular expression: it finds a
   * number exactly when the pattern matches there, and the number is the
   * value of the group, which the match determines uniquely.
   */
  lemma LineRefAtIsPattern(s: string, i: nat, a: nat, b: nat)
    requires i <= |s|
    ensures PatternAt(s, i, a, b) ==> LineRefAt(s, i) == Some(ParseDigits(s[i + 1..i + 1 + a]))
    ensures LineRefAt(s, i).Some? ==>
      var a' := DigitRun(s, i + 1);
      PatternAt(s, i, a', DigitRun(s, i + 2 + a'))
  {
    if PatternAt(s, i, a, b) {
      PatternGivesLineRef(s, i, a, b);
    }
  }

  function LineRefFrom(s: string, i: nat): Option<nat>
    requires i <= |s|
    decreases |s| - i
  {
    if i == |s| then None
    else if LineRefAt(s, i).Some? then LineRefAt(s, i)
    else LineRefFrom(s, i + 1)
  }

  /** `m ? parseInt(m[1]) : null` for `m = line.match(/:(\d+):\d+:/)`. */
  function LineRef(line: string): Option<nat>
  {
    LineRefFrom(line, 0)
  }

  /** The number comes from the leftmost index where the pattern matches. */
  lemma {:induction false} LineRefFromLeftmost(s: string, i: nat)
    requires i <= |s|
    ensures LineRefFrom(s, i).None? <==> forall j | i <= j < |s| :: LineRefAt(s, j).None?
    ensures LineRefFrom(s, i).Some? ==>
      exists j | i <= j < |s| :: LineRefAt(s, j) == LineRefFrom(s, i) &&
        forall k | i <= k < j :: LineRefAt(s, k).None?
    decreases |s| - i
  {
    if i < |s| && LineRefAt(s, i).None? {
      LineRefFromLeftmost(s, i + 1);
      if LineRefFrom(s, i).Some? {
        var j :| i + 1 <= j < |s| && LineRefAt(s, j) == LineRefFrom(s, i + 1) &&
          forall k | i + 1 <= k < j :: LineRefAt(s, k).None?;
        assert forall k | i <= k < j :: LineRefAt(s, k).None?;
      }
    }
  }

  // ---------------------------------------------------------------------
  // the quoted source line and the template
  // ---------------------------------------------------------------------

  /**
   * `numLinea ? codeLines[numLinea - 1] : ""` as the template prints it:
   * no number and 0 give the empty line, a number past the end `undefined`.
   */
  function QuotedCode(codeLines: seq<string>, n: Option<nat>): string
  {
    if n.None? || n.value == 0 then []
    else if n.value <= |codeLines| then codeLines[n.value - 1]
    else "undefined"
  }

  /** `${numLinea}`: the number, or `null` when the line had no reference. */
  function LineNumberText(n: Option<nat>): string
  {
    if n.None? then "null" else Decimal(n.value)
  }

  /** The body of the template of `formatearError`, without its first and last newline. */
  function Report(n: Option<nat>, code: string, message: string, hint: string): string
  {
    Heading + "\n\n📍 Línea " + LineNumberText(n) + "\n❌ " + message +
    "\n\n🧾 Código:\n" + code + "\n\n💡 Sugerencia:\n" + hint
  }

  /** `formatearError(linea, codigo, error, ayuda)`: the template, trimmed. */
  function FormatError(n: Option<nat>, code: string, message: string, hint: string): string
  {
    Trim("\n" + Report(n, code, message, hint) + "\n")
  }

  /**
   * With a hint that ends in a visible character, trimming only removes the
   * template's outer newlines: heading, line, message, code and hint, in
   * that order, whatever the quoted code holds.
   */
  lemma FormatErrorLayout(n: Option<nat>, code: string, message: string, hint: string)
    requires hint != [] && !IsJsSpace(hint[|hint| - 1])
    ensures FormatError(n, code, message, hint) == Report(n, code, message, hint)
  {
    var r := Report(n, code, message, hint);
    assert r[0] == Heading[0] == '🚫';
    assert r[|r| - 1] == hint[|hint| - 1];
    TrimSurrounded("\n", r, "\n");
  }

  // ---------------------------------------------------------------------
  // the cascade of patterns
  // ---------------------------------------------------------------------

  /** The known diagnostics, in the order the source tests them. */
  datatype Rule =
    | MissingSemicolon      // /expected.*;/
    | UnclosedBrace         // /expected.*\}/
    | UnclosedParen         // /expected.*\)/
    | UnterminatedString    // /missing terminating " character/
    | IncompleteExpression  // /expected primary-expression/
    | ExtraClosingBrace     // /expected declaration before/
    | Undeclared            // /was not declared in this scope/

  const Cascade: seq<Rule> :=
    [MissingSemicolon, UnclosedBrace, UnclosedParen, UnterminatedString,
     IncompleteExpression, ExtraClosingBrace, Undeclared]

  /** `/expected.*c/` matches with "expected" at `i` and `c` at `j`. */
  predicate ExpectedThenAt(line: string, c: char, i: nat, j: nat)
  {
    i + 8 <= j < |line| && line[i..i + 8] == "expected" && line[j] == c &&
    forall k | i + 8 <= k < j :: IsDotChar(line[k])
  }

  /** `/expected.*c/.test(line)` */
  predicate ExpectedThen(line: string, c: char)
  {
    exists i, j | 0 <= i <= j < |line| :: ExpectedThenAt(line, c, i, j)
  }

  predicate Matches(rule: Rule, line: string)
  {
    match rule
    case MissingSemicolon => ExpectedThen(line, ';')
    case UnclosedBrace => ExpectedThen(line, '}')
    case UnclosedParen => ExpectedThen(line, ')')
    case UnterminatedString => Contains(line, "missing terminating \" character")
    case IncompleteExpression => Contains(line, "expected primary-expression")
    case ExtraClosingBrace => Contains(line, "expected declaration before")
    case Undeclared => Contains(line, "was not declared in this scope")
  }

  /** The first of `rules` that the line matches, if any. */
  function FirstMatch(rules: seq<Rule>, line: string): (r: Option<Rule>)
    ensures r.None? <==> forall k | 0 <= k < |rules| :: !Matches(rules[k], line)
    ensures r.Some? ==>
      exists k | 0 <= k < |rules| :: rules[k] == r.value && Matches(r.value, line) &&
        forall j | 0 <= j < k :: !Matches(rules[j], line)
  {
    if rules == [] then None
    else if Matches(rules[0], line) then Some(rules[0])
    else
      var r := FirstMatch(rules[1..], line);
      assert forall k | 1 <= k < |rules| :: rules[k] == rules[1..][k - 1];
      r
  }

  /** Which rule decides the message for an error line; `None` is the generic message. */
  function Classify(line: string): Option<Rule>
  {
    FirstMatch(Cascade, line)
  }

  /**
   * The first rule in cascade order wins: rule number `k` is chosen exactly
   * when the line matches it and none of the rules before it.
   */
  lemma ClassifyFirstWins(line: string, k: nat)
    requires k < |Cascade|
    ensures Classify(line) == Some(Cascade[k]) <==>
      Matches(Cascade[k], line) && forall j | 0 <= j < k :: !Matches(Cascade[j], line)
  {
    if Classify(line) == Some(Cascade[k]) {
      var k' :| 0 <= k' < |Cascade| && Cascade[k'] == Cascade[k] && Matches(Cascade[k], line) &&
        forall j | 0 <= j < k' :: !Matches(Cascade[j], line);
      assert k' == k;
    }
    if Matches(Cascade[k], line) && forall j | 0 <= j < k :: !Matches(Cascade[j], line) {
      var r := Classify(line);
      assert r.Some?;
      var k' :| 0 <= k' < |Cascade| && Cascade[k'] == r.value && Matches(r.value, line) &&
        forall j | 0 <= j < k' :: !Matches(Cascade[j], line);
      assert k' == k;
    }
  }

  // ---------------------------------------------------------------------
  // the undeclared identifier: /‘(.+?)’ was not declared/
  // ---------------------------------------------------------------------

  const NotDeclaredTail: string := "’ was not declared"

  /** The pattern can match with its group spanning `line[i + 1..j]`. */
  predicate QuoteAt(line: string, i: nat, j: nat)
  {
    i + 1 < j && OccursAt(line, NotDeclaredTail, j) && line[i] == '‘' &&
    forall k | i < k < j :: IsDotChar(line[k])
  }

  /** The lazy `.+?`: the least end from `j` on, stopping at a line terminator. */
  function LazyEnd(line: string, i: nat, j: nat): (r: Option<nat>)
    requires i + 1 < j <= |line| && line[i] == '‘'
    requires forall k | i < k < j - 1 :: IsDotChar(line[k])
    ensures r.Some? ==> j <= r.value && QuoteAt(line, i, r.value)
    ensures r.Some? ==> forall e | j <= e < r.value :: !QuoteAt(line, i, e)
    ensures r.None? ==> forall e | j <= e :: !QuoteAt(line, i, e)
    decreases |line| - j
  {
    if !IsDotChar(line[j - 1]) then None
    else if OccursAt(line, NotDeclaredTail, j) then Some(j)
    else if j == |line| then None
    else LazyEnd(line, i, j + 1)
  }

  /** The leftmost quote from `i` on at which the pattern matches, with its lazy end. */
  function QuoteFrom(line: string, i: nat): (r: Option<(nat, nat)>)
    ensures r.Some? ==> i <= r.value.0 && QuoteAt(line, r.value.0, r.value.1)
    ensures r.Some? ==> forall s, e | i <= s < r.value.0 :: !QuoteAt(line, s, e)
    ensures r.Some? ==> forall e: nat | e < r.value.1 :: !QuoteAt(line, r.value.0, e)
    ensures r.None? ==> forall s, e | i <= s :: !QuoteAt(line, s, e)
    decreases |line| - i
  {
    if i >= |line| then None
    else if line[i] == '‘' && i + 2 <= |line| then
      match LazyEnd(line, i, i + 2)
      case Some(j) => Some((i, j))
      case None => QuoteFrom(line, i + 1)
    else
      QuoteFrom(line, i + 1)
  }

  /** `m2 ? m2[1] : ""` */
  function UndeclaredName(line: string): string
  {
    match QuoteFrom(line, 0)
    case Some((i, j)) => line[i + 1..j]
    case None => []
  }

  // ---------------------------------------------------------------------
  // messages and the whole classifier
  // ---------------------------------------------------------------------

  function Message(rule: Option<Rule>, line: string): string
  {
    match rule
    case None => "Error de sintaxis."
    case Some(MissingSemicolon) => "Falta un punto y coma (;)."
    case Some(UnclosedBrace) => "Falta cerrar una llave }."
    case Some(UnclosedParen) => "Falta cerrar un paréntesis )."
    case Some(UnterminatedString) => "String sin cerrar."
    case Some(IncompleteExpression) => "Expresión incompleta."
    case Some(ExtraClosingBrace) => "Llave } de más."
    case Some(Undeclared) => "Identificador '" + UndeclaredName(line) + "' no declarado."
  }

  function Hint(rule: Option<Rule>): string
  {
    match rule
    case None => "Revisá esta línea y la anterior."
    case Some(MissingSemicolon) => "En C++, casi todas las instrucciones terminan con ;"
    case Some(UnclosedBrace) => "Cada { debe tener su }."
    case Some(UnclosedParen) => "Revisá condiciones y funciones."
    case Some(UnterminatedString) => "Cada \" debe cerrarse."
    case Some(IncompleteExpression) => "Falta una variable, número o función."
    case Some(ExtraClosingBrace) => "Cerraste una llave que no abriste."
    case Some(Undeclared) => "Declaralo antes de usarlo."
  }

  /** The diagnostic for one line that holds "error:" (server.js:137-170). */
  function Describe(line: string, codeLines: seq<string>): string
  {
    var n := LineRef(line);
    var rule := Classify(line);
    FormatError(n, QuotedCode(codeLines, n), Message(rule, line), Hint(rule))
  }

  /** Some line holds the compiler's error marker. */
  predicate HasErrorLine(lines: seq<string>)
  {
    exists j | 0 <= j < |lines| :: Contains(lines[j], ErrorMarker)
  }

  /**
   * The loop over the stderr lines: lines without the marker are skipped,
   * and the first line holding it is the one the loop returns on.
   */
  function FirstErrorLine(lines: seq<string>): Option<string>
  {
    if lines == [] then None
    else if !Contains(lines[0], ErrorMarker) then FirstErrorLine(lines[1..])
    else Some(lines[0])
  }

  /** `humanizarErrores(stderr, codeLines)` */
  function Humanize(stderr: string, codeLines: seq<string>): string
  {
    match FirstErrorLine(Split(stderr, '\n'))
    case None => NoDiagnosis
    case Some(line) => Describe(line, codeLines)
  }

  // ---------------------------------------------------------------------
  // what the classifier promises
  // ---------------------------------------------------------------------

  /** Every hint ends with a visible character, so trimming never reaches it. */
  lemma HintEndsVisible(rule: Option<Rule>)
    ensures Hint(rule) != [] && !IsJsSpace(Hint(rule)[|Hint(rule)| - 1])
  {
    match rule
    case Some(MissingSemicolon) => assert Hint(rule)[50] == ';';
    case None => assert Hint(rule)[31] == '.';
    case Some(UnclosedBrace) => assert Hint(rule)[22] == '.';
    case Some(UnclosedParen) => assert Hint(rule)[30] == '.';
    case Some(UnterminatedString) => assert Hint(rule)[20] == '.';
    case Some(IncompleteExpression) => assert Hint(rule)[36] == '.';
    case Some(ExtraClosingBrace) => assert Hint(rule)[33] == '.';
    case Some(Undeclared) => assert Hint(rule)[25] == '.';
  }

  /**
   * A diagnostic is always the full report: heading, `Línea` with the line
   * reference, the message, the quoted code and the hint, even when no rule
   * matched.
   */
  lemma DescribeIsReport(line: string, codeLines: seq<string>)
    ensures var n := LineRef(line);
      var rule := Classify(line);
      Describe(line, codeLines) == Report(n, QuotedCode(codeLines, n), Message(rule, line), Hint(rule))
    ensures Describe(line, codeLines)[0] == '🚫'
  {
    var n := LineRef(line);
    var rule := Classify(line);
    HintEndsVisible(rule);
    FormatErrorLayout(n, QuotedCode(codeLines, n), Message(rule, line), Hint(rule));
  }

  /** The loop returns on line `k` when it is the first line holding "error:". */
  lemma {:induction false} FirstErrorLineAt(lines: seq<string>, k: nat)
    requires k < |lines| && Contains(lines[k], ErrorMarker)
    requires forall j | 0 <= j < k :: !Contains(lines[j], ErrorMarker)
    ensures FirstErrorLine(lines) == Some(lines[k])
  {
    if k > 0 {
      assert forall j | 0 <= j < k - 1 :: lines[1..][j] == lines[j + 1];
      FirstErrorLineAt(lines[1..], k - 1);
    }
  }

  /** The loop runs to its end exactly when no line holds "error:". */
  lemma {:induction false} FirstErrorLineNone(lines: seq<string>)
    ensures FirstErrorLine(lines).None? <==> !HasErrorLine(lines)
  {
    if lines != [] {
      FirstErrorLineNone(lines[1..]);
      assert HasErrorLine(lines[1..]) ==> HasErrorLine(lines) by {
        if HasErrorLine(lines[1..]) {
          var j :| 0 <= j < |lines[1..]| && Contains(lines[1..][j], ErrorMarker);
          assert lines[j + 1] == lines[1..][j];
        }
      }
      assert HasErrorLine(lines) && !Contains(lines[0], ErrorMarker) ==> HasErrorLine(lines[1..]) by {
        if HasErrorLine(lines) && !Contains(lines[0], ErrorMarker) {
          var j :| 0 <= j < |lines| && Contains(lines[j], ErrorMarker);
          assert lines[1..][j - 1] == lines[j];
        }
      }
    }
  }

  /**
   * Only the first stderr line holding "error:" counts: the answer is its
   * diagnostic.
   */
  lemma HumanizeFirstErrorLine(stderr: string, codeLines: seq<string>, k: nat)
    requires var lines := Split(stderr, '\n');
      k < |lines| && Contains(lines[k], ErrorMarker) &&
      forall j | 0 <= j < k :: !Contains(lines[j], ErrorMarker)
    ensures Humanize(stderr, codeLines) == Describe(Split(stderr, '\n')[k], codeLines)
  {
    FirstErrorLineAt(Split(stderr, '\n'), k);
  }

  /** The generic "❗ Error de compilación." comes back exactly when no stderr line holds "error:". */
  lemma HumanizeFallbackIff(stderr: string, codeLines: seq<string>)
    ensures Humanize(stderr, codeLines) == NoDiagnosis <==> !HasErrorLine(Split(stderr, '\n'))
  {
    var lines := Split(stderr, '\n');
    FirstErrorLineNone(lines);
    match FirstErrorLine(lines)
    case None =>
    case Some(line) =>
      DescribeIsReport(line, codeLines);
      assert NoDiagnosis[0] == '❗';
  }

  /** Lines after the first error line are never looked at. */
  lemma HumanizeIgnoresLaterLines(first: string, later: string, codeLines: seq<string>)
    requires HasErrorLine(Split(first, '\n'))
    ensures Humanize(first + "\n" + later, codeLines) == Humanize(first, codeLines)
  {
    var xs, ys := Split(first, '\n'), Split(later, '\n');
    SplitAround(first, later, '\n');
    var k := FirstWith(xs);
    FirstErrorLineAt(xs, k);
    assert (xs + ys)[k] == xs[k];
    FirstErrorLineAt(xs + ys, k);
  }

  /** Lines without "error:" before the first error line change nothing. */
  lemma HumanizeSkipsNoise(noise: string, rest: string, codeLines: seq<string>)
    requires !HasErrorLine(Split(noise, '\n'))
    ensures Humanize(noise + "\n" + rest, codeLines) == Humanize(rest, codeLines)
  {
    var xs, ys := Split(noise, '\n'), Split(rest, '\n');
    SplitAround(noise, rest, '\n');
    SkipLines(xs, ys);
  }

  lemma {:induction false} SkipLines(xs: seq<string>, ys: seq<string>)
    requires !HasErrorLine(xs)
    ensures FirstErrorLine(xs + ys) == FirstErrorLine(ys)
  {
    if xs != [] {
      assert (xs + ys)[0] == xs[0];
      assert (xs + ys)[1..] == xs[1..] + ys;
      assert !HasErrorLine(xs[1..]) by {
        forall j | 0 <= j < |xs[1..]| ensures !Contains(xs[1..][j], ErrorMarker) {
          assert xs[1..][j] == xs[j + 1];
        }
      }
      SkipLines(xs[1..], ys);
    } else {
      assert xs + ys == ys;
    }
  }

  /** Index of the first line holding the marker. */
  function FirstWith(lines: seq<string>): (k: nat)
    requires HasErrorLine(lines)
    ensures k < |lines| && Contains(lines[k], ErrorMarker)
    ensures forall j | 0 <= j < k :: !Contains(lines[j], ErrorMarker)
  {
    if Contains(lines[0], ErrorMarker) then 0
    else
      assert HasErrorLine(lines[1..]) by {
        var j :| 0 <= j < |lines| && Contains(lines[j], ErrorMarker);
        assert lines[1..][j - 1] == lines[j];
      }
      1 + FirstWith(lines[1..])
  }

  /**
   * A g++ location `file:line:column:` gives the line number, provided the
   * file name holds no colon; a number past 0 quotes that source line.
   */
  lemma GccLocation(file: string, n: nat, col: nat, rest: string)
    requires ':' !in file
    ensures LineRef(file + ":" + Decimal(n) + ":" + Decimal(col) + ":" + rest) == Some(n)
  {
    var d, e := Decimal(n), Decimal(col);
    DecimalDigits(n);
    DecimalDigits(col);
    var s := file + ":" + d + ":" + e + ":" + rest;
    LocationAt(s, file, d, e, rest);
    ParseDecimal(n);
    forall j | 0 <= j < |file| ensures LineRefAt(s, j).None? {
      assert s[j] == file[j];
    }
    LineRefFromLeftmost(s, 0);
  }

  /** A location `:d:e:` right after `p` is where the pattern matches, with `d` as its group. */
  lemma LocationAt(s: string, p: string, d: string, e: string, rest: string)
    requires d != [] && e != [] && AllDigits(d) && AllDigits(e)
    requires s == p + ":" + d + ":" + e + ":" + rest
    ensures LineRefAt(s, |p|) == Some(ParseDigits(d))
  {
    var i, a, b := |p|, |d|, |e|;
    assert s[i] == ':' && s[i + 1 + a] == ':' && s[i + 2 + a + b] == ':';
    var group, second := s[i + 1..i + 1 + a], s[i + 2 + a..i + 2 + a + b];
    assert group == d by {
      forall k | 0 <= k < a ensures group[k] == d[k] {
        assert s[i + 1 + k] == d[k];
      }
    }
    assert AllDigits(second) by {
      forall k | 0 <= k < b ensures IsDigit(second[k]) {
        assert s[i + 2 + a + k] == e[k];
      }
    }
    assert PatternAt(s, i, a, b);
    PatternGivesLineRef(s, i, a, b);
  }

  /** g++'s message for an operand missing before a `;`. */
  const PrimaryExpressionError: string := "expected primary-expression before ‘;’ token"

  lemma PrimaryExpressionErrorFacts()
    ensures ExpectedThenAt(PrimaryExpressionError, ';', 0, 36)
    ensures OccursAt(PrimaryExpressionError, "expected primary-expression", 0)
  {
    var m := "expected primary-expression";
    assert forall k | 0 <= k < |m| :: PrimaryExpressionError[k] == m[k];
    assert PrimaryExpressionError[..27] == m;
    assert PrimaryExpressionError[..8] == m[..8];
  }

  /**
   * A line matching both `expected.*;` and `expected primary-expression`
   * gets the semicolon message: the earlier rule wins.
   */
  lemma SemicolonBeforePrimaryExpression(p: string, q: string)
    ensures Matches(MissingSemicolon, p + PrimaryExpressionError + q)
    ensures Matches(IncompleteExpression, p + PrimaryExpressionError + q)
    ensures Classify(p + PrimaryExpressionError + q) == Some(MissingSemicolon)
  {
    var line := p + PrimaryExpressionError + q;
    PrimaryExpressionErrorFacts();
    EmbedMatches(p, PrimaryExpressionError, q, ';', 0, 36, "expected primary-expression", 0);
    ClassifyFirstWins(line, 0);
  }

  /** g++'s message for a closing brace with nothing open. */
  const StrayBraceError: string := "expected declaration before ‘}’ token"

  lemma StrayBraceErrorFacts()
    ensures ExpectedThenAt(StrayBraceError, '}', 0, 29)
    ensures OccursAt(StrayBraceError, "expected declaration before", 0)
  {
    var m := "expected declaration before";
    assert forall k | 0 <= k < |m| :: StrayBraceError[k] == m[k];
    assert StrayBraceError[..27] == m;
    assert StrayBraceError[..8] == m[..8];
  }

  /**
   * g++ reports a stray closing brace as "expected declaration before ‘}’
   * token"; that text already matches `expected.*\}`, so unless the line
   * also matches `expected.*;` it gets the unclosed-brace message and never
   * the extra-brace one, although it matches that rule too.
   */
  lemma ExtraBraceMessageShadowed(p: string, q: string)
    requires !ExpectedThen(p + StrayBraceError + q, ';')
    ensures Matches(ExtraClosingBrace, p + StrayBraceError + q)
    ensures Classify(p + StrayBraceError + q) == Some(UnclosedBrace)
  {
    var line := p + StrayBraceError + q;
    StrayBraceErrorFacts();
    EmbedMatches(p, StrayBraceError, q, '}', 0, 29, "expected declaration before", 0);
    ClassifyFirstWins(line, 1);
  }

  /**
   * The identifier in "‘name’ was not declared" is read back whole, when the
   * text before it holds no opening quote and the name holds no closing
   * quote and no line terminator.
   */
  lemma UndeclaredNameRead(p: string, name: string, q: string)
    requires '‘' !in p && '’' !in name && name != []
    requires forall k | 0 <= k < |name| :: IsDotChar(name[k])
    ensures UndeclaredName(p + "‘" + name + NotDeclaredTail + q) == name
  {
    var line := p + "‘" + name + NotDeclaredTail + q;
    var i, j := |p|, |p| + 1 + |name|;
    assert line[i] == '‘';
    assert line[j..j + |NotDeclaredTail|] == NotDeclaredTail;
    assert forall k | i < k < j :: line[k] == name[k - i - 1];
    assert QuoteAt(line, i, j);
    var r := QuoteFrom(line, 0);
    assert r.Some?;
    assert forall s | 0 <= s < i :: line[s] == p[s];
    assert r.value.0 == i;
    forall e: nat | e < j ensures !QuoteAt(line, i, e) {
      if i + 1 < e {
        assert line[e] == name[e - i - 1];
        assert NotDeclaredTail[0] == '’';
      }
    }
    assert r.value.1 == j;
    assert line[i + 1..j] == name;
  }

  /** Matches stay matches when text is put in front. */
  lemma ShiftMatches(p: string, t: string, c: char, i: nat, j: nat, sub: string, o: nat)
    ensures OccursAt(t, sub, o) ==> OccursAt(p + t, sub, |p| + o)
    ensures ExpectedThenAt(t, c, i, j) ==> ExpectedThenAt(p + t, c, |p| + i, |p| + j)
  {
    if OccursAt(t, sub, o) {
      assert (p + t)[|p| + o..|p| + o + |sub|] == t[o..o + |sub|];
    }
    if ExpectedThenAt(t, c, i, j) {
      assert (p + t)[|p| + i..|p| + i + 8] == t[i..i + 8];
      assert forall k | |p| + i + 8 <= k < |p| + j :: (p + t)[k] == t[k - |p|];
    }
  }

  /** Matches inside a text stay matches when text is put around it. */
  lemma EmbedMatches(p: string, t: string, q: string, c: char, i: nat, j: nat, sub: string, o: nat)
    ensures OccursAt(t, sub, o) ==> OccursAt(p + t + q, sub, |p| + o)
    ensures ExpectedThenAt(t, c, i, j) ==> ExpectedThenAt(p + t + q, c, |p| + i, |p| + j)
  {
    ShiftMatches(p, t, c, i, j, sub, o);
    var pt := p + t;
    if OccursAt(pt, sub, |p| + o) {
      assert (pt + q)[|p| + o..|p| + o + |sub|] == pt[|p| + o..|p| + o + |sub|];
    }
    if ExpectedThenAt(pt, c, |p| + i, |p| + j) {
      assert (pt + q)[|p| + i..|p| + i + 8] == pt[|p| + i..|p| + i + 8];
      assert forall k | |p| + i + 8 <= k <= |p| + j :: (pt + q)[k] == pt[k];
    }
  }

  /** A text without a newline is one line. */
  lemma OneLine(line: string)
    requires '\n' !in line
    ensures Split(line, '\n') == [line]
  {
    SplitJoin([line], '\n');
  }

  const SemicolonError: string := " error: expected ‘,’ or ‘;’ before ‘int’"

  lemma SemicolonErrorFacts()
    ensures '\n' !in SemicolonError
    ensures OccursAt(SemicolonError, ErrorMarker, 1)
    ensures ExpectedThenAt(SemicolonError, ';', 8, 25)
  {
    assert forall k | 0 <= k < 6 :: SemicolonError[1 + k] == ErrorMarker[k];
    assert SemicolonError[1..7] == ErrorMarker;
    var m := "expected";
    assert forall k | 0 <= k < 8 :: SemicolonError[8 + k] == m[k];
    assert SemicolonError[8..16] == m;
  }

  /** A one-line stderr holding "error:" is answered with that line's diagnostic. */
  lemma HumanizeOneLine(line: string, codeLines: seq<string>)
    requires '\n' !in line && Contains(line, ErrorMarker)
    ensures Humanize(line, codeLines) == Describe(line, codeLines)
  {
    OneLine(line);
    FirstErrorLineAt([line], 0);
  }

  /** A g++ location prefix holds no newline when the file name holds none. */
  lemma LocationNoNewline(file: string, n: nat, col: nat)
    requires '\n' !in file
    ensures '\n' !in file + ":" + Decimal(n) + ":" + Decimal(col) + ":"
  {
    DecimalDigits(n);
    DecimalDigits(col);
  }

  /** g++'s missing-semicolon line is one line, holds "error:", names line `n` and takes the first rule. */
  lemma SemicolonLine(file: string, n: nat, col: nat)
    requires ':' !in file && '\n' !in file
    ensures var line := file + ":" + Decimal(n) + ":" + Decimal(col) + ":" + SemicolonError;
      '\n' !in line && Contains(line, ErrorMarker) &&
      LineRef(line) == Some(n) && Classify(line) == Some(MissingSemicolon)
  {
    var head := file + ":" + Decimal(n) + ":" + Decimal(col) + ":";
    var line := head + SemicolonError;
    SemicolonErrorFacts();
    LocationNoNewline(file, n, col);
    ShiftMatches(head, SemicolonError, ';', 8, 25, ErrorMarker, 1);
    assert Matches(Cascade[0], line);
    ClassifyFirstWins(line, 0);
    GccLocation(file, n, col, SemicolonError);
  }

  /**
   * A one-line stderr whose line reference is a line of the code and whose
   * rule is known is answered with the report quoting that line.
   */
  lemma HumanizeQuotes(line: string, codeLines: seq<string>, n: nat, rule: Option<Rule>)
    requires '\n' !in line && Contains(line, ErrorMarker)
    requires LineRef(line) == Some(n) && Classify(line) == rule
    requires 1 <= n <= |codeLines|
    ensures Humanize(line, codeLines) == Report(Some(n), codeLines[n - 1], Message(rule, line), Hint(rule))
  {
    assert QuotedCode(codeLines, Some(n)) == codeLines[n - 1];
    HumanizeOneLine(line, codeLines);
    DescribeIsReport(line, codeLines);
  }

  /**
   * The missing-semicolon case end to end: g++'s one error line for line
   * `n` of the submitted code is answered with the semicolon diagnostic
   * quoting that line.
   */
  lemma MissingSemicolonScenario(file: string, n: nat, col: nat, codeLines: seq<string>)
    requires ':' !in file && '\n' !in file
    requires 1 <= n <= |codeLines|
    ensures Humanize(file + ":" + Decimal(n) + ":" + Decimal(col) + ":" + SemicolonError, codeLines) ==
      Report(Some(n), codeLines[n - 1], Message(Some(MissingSemicolon), []), Hint(Some(MissingSemicolon)))
  {
    var line := file + ":" + Decimal(n) + ":" + Decimal(col) + ":" + SemicolonError;
    SemicolonLine(file, n, col);
    HumanizeQuotes(line, codeLines, n, Some(MissingSemicolon));
  }
}
