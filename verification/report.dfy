/** The report `Rein::run` prints into its output buffer (src/Rein.php:57-71)
    and the wrapper it echoes the buffer in (src/Rein.php:73-79).

    The report is a list of lines, each followed by the end-of-line string
    (`PHP_EOL`, taken to be "\n"). The elapsed time is an opaque string: the
    text PHP makes of the rounded float. */
module Reporting {
  import opened Wrappers

  /** One assertion failure, as the assertion callback records it
      (src/Rein.php:30-32). A missing description is `None`. */
  datatype Failure = Failure(file: string, line: nat, assertion: string, description: Option<string>)

  const EOL: string := "\n"

  /** `str_repeat(c, n)`. */
  function Repeat(c: char, n: nat): (r: string)
    ensures |r| == n && forall k :: 0 <= k < n ==> r[k] == c
  {
    if n == 0 then [] else Repeat(c, n - 1) + [c]
  }

  /** Width of the separator rule. */
  const SeparatorWidth: nat := 79

  /** The rule printed under the summary and after every entry. */
  const Separator: string := Repeat('-', SeparatorWidth)

  // ---------------------------------------------------------------------
  // Integers as PHP prints them
  // ---------------------------------------------------------------------

  predicate IsDigit(c: char)
  {
    '0' <= c <= '9'
  }

  predicate AllDigits(s: string)
  {
    forall k :: 0 <= k < |s| ==> IsDigit(s[k])
  }

  /** Decimal text of a non-negative integer: digits only, never empty, and
      a leading zero only for zero itself. */
  function Decimal(n: nat): (r: string)
    ensures |r| >= 1 && AllDigits(r)
    ensures r[0] == '0' <==> n == 0
    ensures r[0] == '0' ==> |r| == 1
    decreases n
  {
    if n < 10 then [('0' as int + n) as char]
    else Decimal(n / 10) + [('0' as int + n % 10) as char]
  }

  /** The value a digit string denotes. */
  function DigitsValue(s: string): nat
    requires AllDigits(s)
    decreases |s|
  {
    if s == [] then 0
    else 10 * DigitsValue(s[..|s| - 1]) + (s[|s| - 1] as int - '0' as int)
  }

  /** Reading the printed number back gives the number. */
  lemma {:induction false} DecimalRoundTrip(n: nat)
    ensures DigitsValue(Decimal(n)) == n
    decreases n
  {
    if n >= 10 {
      DecimalRoundTrip(n / 10);
      var r := Decimal(n);
      assert r[..|r| - 1] == Decimal(n / 10);
    }
  }

  // ---------------------------------------------------------------------
  // The lines of the report
  // ---------------------------------------------------------------------

  /** The part both summary lines share. */
  function Tally(asserts: nat, tests: nat, elapsed: string): string
  {
    Decimal(asserts) + " assert(s) in " + Decimal(tests) + " test(s) - completed in " + elapsed + " seconds."
  }

  function PassedLine(asserts: nat, tests: nat, elapsed: string): string
  {
    "Passed " + Tally(asserts, tests, elapsed)
  }

  function FailedLine(failed: nat, asserts: nat, tests: nat, elapsed: string): string
  {
    "Failed " + Decimal(failed) + " of " + Tally(asserts, tests, elapsed)
  }

  /** `N. file:line` for the failure numbered `number`. */
  function EntryLine(number: nat, f: Failure): string
  {
    Decimal(number) + ". " + f.file + ":" + Decimal(f.line)
  }

  /** The lines printed for one failure: its numbered location, its
      assertion text indented by a tab when that text is not empty, and a
      separator. */
  function EntryLines(number: nat, f: Failure): seq<string>
  {
    [EntryLine(number, f)] + (if |f.assertion| > 0 then ["\t" + f.assertion] else []) + [Separator]
  }

  /** The lines printed for `failures`, numbered from 1 in recording order. */
  function Entries(failures: seq<Failure>): seq<string>
    decreases |failures|
  {
    if failures == [] then []
    else Entries(failures[..|failures| - 1]) + EntryLines(|failures|, failures[|failures| - 1])
  }

  /** All lines of the report. */
  function Lines(failures: seq<Failure>, asserts: nat, tests: nat, elapsed: string): seq<string>
  {
    if failures == [] then [PassedLine(asserts, tests, elapsed)]
    else [FailedLine(|failures|, asserts, tests, elapsed), Separator] + Entries(failures)
  }

  /** Each line followed by the end-of-line string. */
  function Join(lines: seq<string>): string
    decreases |lines|
  {
    if lines == [] then [] else Join(lines[..|lines| - 1]) + lines[|lines| - 1] + EOL
  }

  /** The buffered report text. */
  function Report(failures: seq<Failure>, asserts: nat, tests: nat, elapsed: string): string
  {
    Join(Lines(failures, asserts, tests, elapsed))
  }

  // ---------------------------------------------------------------------
  // The renderer (src/Rein.php:57-71)
  // ---------------------------------------------------------------------

  lemma EntriesStep(failures: seq<Failure>, k: nat)
    requires k < |failures|
    ensures Entries(failures[..k + 1]) == Entries(failures[..k]) + EntryLines(k + 1, failures[k])
  {
    assert failures[..k + 1][..k] == failures[..k];
  }

  /** Prints the report line by line into a buffer, as the source does. */
  method RenderReport(failures: seq<Failure>, asserts: nat, tests: nat, elapsed: string) returns (report: string)
    ensures report == Report(failures, asserts, tests, elapsed)
  {
    ghost var lines: seq<string> := [];
    report := [];
    if |failures| > 0 {
      var summary := FailedLine(|failures|, asserts, tests, elapsed);
      report, lines := PrintLine(report, lines, summary);
      report, lines := PrintLine(report, lines, Separator);
      ghost var head := lines;
      report, lines := PrintEntries(report, lines, failures);
      FailureLines(failures, asserts, tests, elapsed);
      assert head == [summary, Separator];
      assert lines == Lines(failures, asserts, tests, elapsed);
    } else {
      report, lines := PrintLine(report, lines, PassedLine(asserts, tests, elapsed));
      assert lines == Lines(failures, asserts, tests, elapsed);
    }
    ReportIsJoin(failures, asserts, tests, elapsed, lines);
  }

  lemma EntriesExtend(lines: seq<string>, failures: seq<Failure>, i: nat, prev: seq<string>, next: seq<string>)
    requires i < |failures|
    requires prev == lines + Entries(failures[..i])
    requires next == prev + EntryLines(i + 1, failures[i])
    ensures next == lines + Entries(failures[..i + 1])
  {
    EntriesStep(failures, i);
  }

  /** The source's `foreach` over the failures, numbering them from 1. */
  method PrintEntries(buffer: string, ghost lines: seq<string>, failures: seq<Failure>)
    returns (buffer': string, ghost lines': seq<string>)
    requires buffer == Join(lines)
    ensures lines' == lines + Entries(failures)
    ensures buffer' == Join(lines')
    ensures buffer' == buffer + Join(Entries(failures))
  {
    buffer', lines' := buffer, lines;
    var i := 0;
    while i < |failures|
      invariant 0 <= i <= |failures|
      invariant buffer' == Join(lines')
      invariant lines' == lines + Entries(failures[..i])
    {
      ghost var prev := lines';
      buffer', lines' := PrintEntry(buffer', lines', i + 1, failures[i]);
      EntriesExtend(lines, failures, i, prev, lines');
      i := i + 1;
    }
    assert failures[..i] == failures;
    JoinAppend(lines, Entries(failures));
  }

  lemma ReportIsJoin(failures: seq<Failure>, asserts: nat, tests: nat, elapsed: string, lines: seq<string>)
    requires lines == Lines(failures, asserts, tests, elapsed)
    ensures Report(failures, asserts, tests, elapsed) == Join(lines)
  {
  }

  /** The body of the source's `foreach` over the failures: the numbered
      location, the tab-indented assertion text when there is one, and a
      separator. */
  method PrintEntry(buffer: string, ghost lines: seq<string>, number: nat, f: Failure)
    returns (buffer': string, ghost lines': seq<string>)
    requires buffer == Join(lines)
    ensures lines' == lines + EntryLines(number, f)
    ensures buffer' == Join(lines')
    ensures buffer' == buffer + Join(EntryLines(number, f))
  {
    buffer', lines' := PrintLine(buffer, lines, EntryLine(number, f));
    if |f.assertion| > 0 {
      buffer', lines' := PrintLine(buffer', lines', "\t" + f.assertion);
    }
    buffer', lines' := PrintLine(buffer', lines', Separator);
    assert lines' == lines + EntryLines(number, f);
    JoinAppend(lines, EntryLines(number, f));
  }

  /** One `print ... . PHP_EOL`: appends a line to the buffer. */
  method PrintLine(buffer: string, ghost lines: seq<string>, line: string)
    returns (buffer': string, ghost lines': seq<string>)
    requires buffer == Join(lines)
    ensures lines' == lines + [line]
    ensures buffer' == Join(lines') && buffer' == buffer + line + EOL
  {
    buffer' := buffer + line + EOL;
    lines' := lines + [line];
    assert lines'[..|lines'| - 1] == lines;
  }

  // ---------------------------------------------------------------------
  // The output channel (src/Rein.php:73-79)
  // ---------------------------------------------------------------------

  /** What is echoed: the report as it is under the CLI, otherwise inside a
      `<pre>` block. */
  function Emit(report: string, isCli: bool): string
  {
    if isCli then report else "<pre>" + EOL + report + "</pre>" + EOL
  }

  /** Outside the CLI the report sits, unchanged, between the two wrapper
      lines; under the CLI it is the whole output. */
  lemma EmitFrames(report: string, isCli: bool)
    ensures isCli ==> Emit(report, isCli) == report
    ensures !isCli ==> var out := Emit(report, isCli);
      |out| == |report| + 13 && out[..6] == "<pre>\n" && out[6..|out| - 7] == report && out[|out| - 7..] == "</pre>\n"
  {
    if !isCli {
      var open, close := "<pre>" + EOL, "</pre>" + EOL;
      var out := Emit(report, isCli);
      assert out == open + report + close;
      assert |open| == 6 && |close| == 7;
      assert out[..6] == open;
      assert out[6..|out| - 7] == report;
      assert out[|out| - 7..] == close;
    }
  }

  // ---------------------------------------------------------------------
  // Reading the output back
  // ---------------------------------------------------------------------

  predicate NoEOL(line: string)
  {
    forall k :: 0 <= k < |line| ==> line[k] != '\n'
  }

  /** Length of the first line of `s`: up to its first "\n", or all of it. */
  function LineLength(s: string): (n: nat)
    ensures n <= |s| && NoEOL(s[..n]) && (n < |s| ==> s[n] == '\n')
    decreases |s|
  {
    if s == [] || s[0] == '\n' then 0
    else
      var n := 1 + LineLength(s[1..]);
      assert s[..n] == [s[0]] + s[1..][..n - 1];
      n
  }

  /** Splits text into its "\n"-terminated lines (a last line without
      terminator counts too). */
  function SplitLines(s: string): seq<string>
    decreases |s|
  {
    if s == [] then []
    else
      var n := LineLength(s);
      if n == |s| then [s] else [s[..n]] + SplitLines(s[n + 1..])
  }

  lemma {:induction false} JoinCons(line: string, lines: seq<string>)
    ensures Join([line] + lines) == line + EOL + Join(lines)
    decreases |lines|
  {
    if lines != [] {
      var init := lines[..|lines| - 1];
      JoinCons(line, init);
      assert ([line] + lines)[..|lines|] == [line] + init;
    }
  }

  lemma {:induction false} JoinAppend(a: seq<string>, b: seq<string>)
    ensures Join(a + b) == Join(a) + Join(b)
    decreases |b|
  {
    if b == [] {
      assert a + b == a;
    } else {
      var init, last := b[..|b| - 1], b[|b| - 1];
      JoinAppend(a, init);
      assert (a + b)[..|a + b| - 1] == a + init;
      assert (a + b)[|a + b| - 1] == last;
      calc {
        Join(a + b);
        Join(a + init) + last + EOL;
        Join(a) + Join(init) + last + EOL;
        Join(a) + (Join(init) + last + EOL);
        Join(a) + Join(b);
      }
    }
  }

  lemma SplitFirstLine(line: string, rest: string)
    requires NoEOL(line)
    ensures SplitLines(line + EOL + rest) == [line] + SplitLines(rest)
  {
    var s := line + EOL + rest;
    var n := LineLength(s);
    assert s[|line|] == '\n';
    assert forall k :: 0 <= k < |line| ==> s[k] == line[k];
    assert n == |line|;
    assert s[..n] == line;
    assert s[n + 1..] == rest;
  }

  /** The serialiser's inverse: splitting joined lines gives the lines back,
      provided no line holds a line break of its own. */
  lemma {:induction false} SplitJoin(lines: seq<string>)
    requires forall k :: 0 <= k < |lines| ==> NoEOL(lines[k])
    ensures SplitLines(Join(lines)) == lines
    decreases |lines|
  {
    if lines != [] {
      JoinCons(lines[0], lines[1..]);
      assert [lines[0]] + lines[1..] == lines;
      SplitFirstLine(lines[0], Join(lines[1..]));
      SplitJoin(lines[1..]);
    }
  }

  /** A failure record that can be printed without adding line breaks. */
  predicate OneLine(f: Failure)
  {
    NoEOL(f.file) && NoEOL(f.assertion)
  }

  lemma NoEOLConcat(a: string, b: string)
    requires NoEOL(a) && NoEOL(b)
    ensures NoEOL(a + b)
  {
    forall k | 0 <= k < |a + b| ensures (a + b)[k] != '\n' {
      if k >= |a| { assert (a + b)[k] == b[k - |a|]; }
    }
  }

  lemma DecimalNoEOL(n: nat)
    ensures NoEOL(Decimal(n))
  {
    var r := Decimal(n);
    forall k | 0 <= k < |r| ensures r[k] != '\n' {
      assert IsDigit(r[k]);
    }
  }

  lemma EntryLinesNoEOL(number: nat, f: Failure)
    requires OneLine(f)
    ensures forall k :: 0 <= k < |EntryLines(number, f)| ==> NoEOL(EntryLines(number, f)[k])
  {
    var d, fl := Decimal(number), Decimal(f.line);
    DecimalNoEOL(number);
    DecimalNoEOL(f.line);
    assert NoEOL(". ") && NoEOL(":") && NoEOL("\t");
    NoEOLConcat(d, ". ");
    NoEOLConcat(d + ". ", f.file);
    NoEOLConcat(d + ". " + f.file, ":");
    NoEOLConcat(d + ". " + f.file + ":", fl);
    NoEOLConcat("\t", f.assertion);
  }

  lemma {:induction false} EntriesNoEOL(failures: seq<Failure>)
    requires forall k :: 0 <= k < |failures| ==> OneLine(failures[k])
    ensures forall k :: 0 <= k < |Entries(failures)| ==> NoEOL(Entries(failures)[k])
    decreases |failures|
  {
    if failures != [] {
      var n := |failures|;
      var init := Entries(failures[..n - 1]);
      var el := EntryLines(n, failures[n - 1]);
      EntriesNoEOL(failures[..n - 1]);
      EntryLinesNoEOL(n, failures[n - 1]);
      forall k | 0 <= k < |init + el| ensures NoEOL((init + el)[k]) {
        if k >= |init| { assert (init + el)[k] == el[k - |init|]; }
      }
    }
  }

  /** The summary lines hold no line break when the elapsed text holds none. */
  lemma SummaryNoEOL(failed: nat, asserts: nat, tests: nat, elapsed: string)
    requires NoEOL(elapsed)
    ensures NoEOL(PassedLine(asserts, tests, elapsed))
    ensures NoEOL(FailedLine(failed, asserts, tests, elapsed))
  {
    var a, t, f := Decimal(asserts), Decimal(tests), Decimal(failed);
    DecimalNoEOL(asserts);
    DecimalNoEOL(tests);
    DecimalNoEOL(failed);
    var m1, m2, m3 := " assert(s) in ", " test(s) - completed in ", " seconds.";
    assert NoEOL(m1) && NoEOL(m2) && NoEOL(m3) && NoEOL("Passed ") && NoEOL("Failed ") && NoEOL(" of ");
    NoEOLConcat(a, m1);
    NoEOLConcat(a + m1, t);
    NoEOLConcat(a + m1 + t, m2);
    NoEOLConcat(a + m1 + t + m2, elapsed);
    NoEOLConcat(a + m1 + t + m2 + elapsed, m3);
    var tally := a + m1 + t + m2 + elapsed + m3;
    NoEOLConcat("Passed ", tally);
    NoEOLConcat("Failed ", f);
    NoEOLConcat("Failed " + f, " of ");
    NoEOLConcat("Failed " + f + " of ", tally);
  }

  /** No line of the report holds a line break of its own when the texts
      put into it hold none. */
  lemma LinesNoEOL(failures: seq<Failure>, asserts: nat, tests: nat, elapsed: string)
    requires NoEOL(elapsed)
    requires forall k :: 0 <= k < |failures| ==> OneLine(failures[k])
    ensures forall k :: 0 <= k < |Lines(failures, asserts, tests, elapsed)| ==> NoEOL(Lines(failures, asserts, tests, elapsed)[k])
  {
    var lines := Lines(failures, asserts, tests, elapsed);
    SummaryNoEOL(|failures|, asserts, tests, elapsed);
    assert NoEOL(Separator);
    if failures != [] {
      EntriesNoEOL(failures);
      FailureLines(failures, asserts, tests, elapsed);
      forall k | 2 <= k < |lines| ensures NoEOL(lines[k]) {
        assert lines[k] == Entries(failures)[k - 2];
      }
    }
  }

  /** The `<pre>` wrapper is two more lines around the report's. */
  lemma EmitAsLines(lines: seq<string>)
    ensures Emit(Join(lines), false) == Join(["<pre>"] + lines + ["</pre>"])
  {
    JoinCons("<pre>", lines);
    JoinAppend(["<pre>"] + lines, ["</pre>"]);
    assert Join(["</pre>"]) == "</pre>" + EOL by {
      assert ["</pre>"][..0] == [];
    }
  }

  /** Read line by line, the echoed output is the report's lines, framed by
      `<pre>` and `</pre>` outside the CLI. */
  lemma OutputReadsBack(failures: seq<Failure>, asserts: nat, tests: nat, elapsed: string, isCli: bool)
    requires NoEOL(elapsed)
    requires forall k :: 0 <= k < |failures| ==> OneLine(failures[k])
    ensures SplitLines(Emit(Report(failures, asserts, tests, elapsed), isCli))
         == (if isCli then [] else ["<pre>"]) + Lines(failures, asserts, tests, elapsed) + (if isCli then [] else ["</pre>"])
  {
    var lines := Lines(failures, asserts, tests, elapsed);
    LinesNoEOL(failures, asserts, tests, elapsed);
    if isCli {
      SplitJoin(lines);
      assert [] + lines + [] == lines;
    } else {
      var framed := ["<pre>"] + lines + ["</pre>"];
      EmitAsLines(lines);
      assert NoEOL("<pre>") && NoEOL("</pre>");
      forall k | 0 <= k < |framed| ensures NoEOL(framed[k]) {
        if 0 < k < |framed| - 1 { assert framed[k] == lines[k - 1]; }
      }
      SplitJoin(framed);
    }
  }

  // ---------------------------------------------------------------------
  // Properties of the layout
  // ---------------------------------------------------------------------

  /** Number of lines equal to `line`. */
  function Occurrences(lines: seq<string>, line: string): nat
    decreases |lines|
  {
    if lines == [] then 0
    else Occurrences(lines[..|lines| - 1], line) + (if lines[|lines| - 1] == line then 1 else 0)
  }

  lemma OccurrencesSingle(x: string, line: string)
    ensures Occurrences([x], line) == if x == line then 1 else 0
  {
    assert [x][..0] == [];
  }

  lemma {:induction false} OccurrencesAppend(a: seq<string>, b: seq<string>, line: string)
    ensures Occurrences(a + b, line) == Occurrences(a, line) + Occurrences(b, line)
    decreases |b|
  {
    if b == [] {
      assert a + b == a;
    } else {
      var init := b[..|b| - 1];
      OccurrencesAppend(a, init, line);
      assert (a + b)[..|a + b| - 1] == a + init;
      assert (a + b)[|a + b| - 1] == b[|b| - 1];
    }
  }

  lemma EntryLinesSeparators(number: nat, f: Failure)
    ensures Occurrences(EntryLines(number, f), Separator) == 1
  {
    var d := Decimal(number);
    var e := EntryLine(number, f);
    var t: seq<string> := if |f.assertion| > 0 then ["\t" + f.assertion] else [];
    assert e[0] == d[0] && IsDigit(d[0]);
    assert e != Separator by { assert Separator[0] == '-'; }
    assert ("\t" + f.assertion) != Separator by {
      assert ("\t" + f.assertion)[0] == '\t';
      assert Separator[0] == '-';
    }
    OccurrencesSingle(e, Separator);
    OccurrencesSingle(Separator, Separator);
    if |f.assertion| > 0 {
      OccurrencesSingle("\t" + f.assertion, Separator);
    }
    assert Occurrences(t, Separator) == 0;
    OccurrencesAppend([e], t, Separator);
    OccurrencesAppend([e] + t, [Separator], Separator);
  }

  lemma {:induction false} EntriesSeparators(failures: seq<Failure>)
    ensures Occurrences(Entries(failures), Separator) == |failures|
    decreases |failures|
  {
    if failures != [] {
      var n := |failures|;
      EntriesSeparators(failures[..n - 1]);
      OccurrencesAppend(Entries(failures[..n - 1]), EntryLines(n, failures[n - 1]), Separator);
      EntryLinesSeparators(n, failures[n - 1]);
    }
  }

  /** With N failures the report has exactly N + 1 separator lines: one
      under the summary and one closing each entry. Without failures it has
      none. */
  lemma SeparatorCount(failures: seq<Failure>, asserts: nat, tests: nat, elapsed: string)
    ensures Occurrences(Lines(failures, asserts, tests, elapsed), Separator)
         == if failures == [] then 0 else |failures| + 1
  {
    assert Separator[0] == '-';
    if failures == [] {
      var p := PassedLine(asserts, tests, elapsed);
      assert p[0] == 'P';
      OccurrencesSingle(p, Separator);
    } else {
      var h := FailedLine(|failures|, asserts, tests, elapsed);
      assert h[0] == 'F';
      OccurrencesSingle(h, Separator);
      OccurrencesSingle(Separator, Separator);
      OccurrencesAppend([h], [Separator], Separator);
      assert [h] + [Separator] == [h, Separator];
      OccurrencesAppend([h, Separator], Entries(failures), Separator);
      EntriesSeparators(failures);
    }
  }

  lemma {:induction false} EntriesPrefix(failures: seq<Failure>, k: nat)
    requires k <= |failures|
    ensures Entries(failures[..k]) <= Entries(failures)
    decreases |failures| - k
  {
    if k < |failures| {
      var n := |failures|;
      EntriesPrefix(failures[..n - 1], k);
      assert failures[..n - 1][..k] == failures[..k];
    } else {
      assert failures[..k] == failures;
    }
  }

  /** Entry k (0-based) occupies, among the entry lines, the stretch after
      the lines of the first k entries. */
  lemma EntriesLayout(failures: seq<Failure>, k: nat)
    requires k < |failures|
    ensures var es, lo, hi := Entries(failures), |Entries(failures[..k])|, |Entries(failures[..k + 1])|;
      && lo < hi <= |es|
      && es[lo..hi] == EntryLines(k + 1, failures[k])
  {
    EntriesPrefix(failures, k + 1);
    EntriesStep(failures, k);
  }

  /** The stretch of entry k ends with a separator. */
  lemma EntryClosed(failures: seq<Failure>, k: nat)
    requires k < |failures|
    ensures var es, hi := Entries(failures), |Entries(failures[..k + 1])|;
      0 < hi <= |es| && es[hi - 1] == Separator
  {
    EntriesLayout(failures, k);
    var es, lo, hi := Entries(failures), |Entries(failures[..k])|, |Entries(failures[..k + 1])|;
    var el := EntryLines(k + 1, failures[k]);
    assert el[|el| - 1] == Separator;
    assert es[hi - 1] == es[lo..hi][hi - 1 - lo];
  }

  lemma FailureLines(failures: seq<Failure>, asserts: nat, tests: nat, elapsed: string)
    requires failures != []
    ensures Lines(failures, asserts, tests, elapsed)
         == [FailedLine(|failures|, asserts, tests, elapsed), Separator] + Entries(failures)
  {
  }

  /** The failure branch opens with the summary naming the failure count,
      then a separator; the entries fill the rest. */
  lemma FailureHeader(failures: seq<Failure>, asserts: nat, tests: nat, elapsed: string)
    requires failures != []
    ensures var lines := Lines(failures, asserts, tests, elapsed);
      && |lines| == 2 + |Entries(failures)|
      && lines[0] == FailedLine(|failures|, asserts, tests, elapsed)
      && lines[1] == Separator
      && lines[2..] == Entries(failures)
  {
    FailureLines(failures, asserts, tests, elapsed);
    var h := [FailedLine(|failures|, asserts, tests, elapsed), Separator];
    assert (h + Entries(failures))[|h|..] == Entries(failures);
  }

  /** Failure k (0-based) is printed as entry number k + 1, right after the
      lines of the failures recorded before it. */
  lemma EntryPlacement(failures: seq<Failure>, asserts: nat, tests: nat, elapsed: string, k: nat)
    requires k < |failures|
    ensures var lines := Lines(failures, asserts, tests, elapsed);
      var lo, hi := 2 + |Entries(failures[..k])|, 2 + |Entries(failures[..k + 1])|;
      && lo < hi <= |lines|
      && lines[lo..hi] == EntryLines(k + 1, failures[k])
  {
    var es := Entries(failures);
    var h := [FailedLine(|failures|, asserts, tests, elapsed), Separator];
    FailureLines(failures, asserts, tests, elapsed);
    EntriesLayout(failures, k);
    SliceAfter(h, es, |Entries(failures[..k])|, |Entries(failures[..k + 1])|);
  }

  lemma SliceAfter(h: seq<string>, es: seq<string>, lo: nat, hi: nat)
    requires lo <= hi <= |es|
    ensures (h + es)[|h| + lo .. |h| + hi] == es[lo..hi]
  {
  }

  /** Every entry has a separator right before it and ends with one. */
  lemma EntryFraming(failures: seq<Failure>, asserts: nat, tests: nat, elapsed: string, k: nat)
    requires k < |failures|
    ensures var lines := Lines(failures, asserts, tests, elapsed);
      var lo, hi := 2 + |Entries(failures[..k])|, 2 + |Entries(failures[..k + 1])|;
      && 0 < lo < hi <= |lines|
      && lines[lo - 1] == Separator
      && lines[hi - 1] == Separator
  {
    var lines := Lines(failures, asserts, tests, elapsed);
    var es := Entries(failures);
    FailureLines(failures, asserts, tests, elapsed);
    EntriesLayout(failures, k);
    EntryClosed(failures, k);
    var lo, hi := |Entries(failures[..k])|, |Entries(failures[..k + 1])|;
    assert lines[2 + hi - 1] == es[hi - 1];
    if k > 0 {
      EntryClosed(failures, k - 1);
      assert lines[2 + lo - 1] == es[lo - 1];
    }
  }

  /** The description never reaches the report: failures that agree on
      file, line and assertion text give the same report. */
  lemma DescriptionNotPrinted(failures: seq<Failure>, others: seq<Failure>, asserts: nat, tests: nat, elapsed: string)
    requires |failures| == |others|
    requires forall k :: 0 <= k < |failures| ==>
               failures[k].(description := None) == others[k].(description := None)
    ensures Report(failures, asserts, tests, elapsed) == Report(others, asserts, tests, elapsed)
  {
    EntriesAgree(failures, others);
  }

  lemma {:induction false} EntriesAgree(failures: seq<Failure>, others: seq<Failure>)
    requires |failures| == |others|
    requires forall k :: 0 <= k < |failures| ==>
               failures[k].(description := None) == others[k].(description := None)
    ensures Entries(failures) == Entries(others)
    decreases |failures|
  {
    if failures != [] {
      var n := |failures|;
      EntriesAgree(failures[..n - 1], others[..n - 1]);
      assert failures[n - 1].(description := None) == others[n - 1].(description := None);
    }
  }

  lemma JoinStartsWithFirst(lines: seq<string>)
    requires lines != []
    ensures |lines[0]| <= |Join(lines)| && Join(lines)[..|lines[0]|] == lines[0]
  {
    JoinCons(lines[0], lines[1..]);
    assert [lines[0]] + lines[1..] == lines;
  }

  lemma SummaryWords(failed: nat, asserts: nat, tests: nat, elapsed: string)
    ensures |PassedLine(asserts, tests, elapsed)| >= 7 && PassedLine(asserts, tests, elapsed)[..7] == "Passed "
    ensures |FailedLine(failed, asserts, tests, elapsed)| >= 7 && FailedLine(failed, asserts, tests, elapsed)[..7] == "Failed "
  {
  }

  /** The first word of the report is the verdict: `Passed` exactly when no
      failure was recorded. */
  lemma ReportVerdict(failures: seq<Failure>, asserts: nat, tests: nat, elapsed: string)
    ensures var r := Report(failures, asserts, tests, elapsed);
      && |r| >= 7
      && (r[..7] == "Passed " <==> failures == [])
      && (r[..7] == "Failed " <==> failures != [])
  {
    var lines := Lines(failures, asserts, tests, elapsed);
    JoinStartsWithFirst(lines);
    SummaryWords(|failures|, asserts, tests, elapsed);
    var r := Join(lines);
    if failures == [] {
      assert lines[0] == PassedLine(asserts, tests, elapsed);
    } else {
      assert lines[0] == FailedLine(|failures|, asserts, tests, elapsed);
    }
    assert r[..7] == lines[0][..7];
    assert "Passed "[0] != "Failed "[0];
  }
}
