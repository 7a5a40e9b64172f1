# Rein, modelled in Dafny

Rein is a minimal PHP test runner: `Rein::run($files)` reads each given
file, counts its `assert(` call sites, finds the functions named `test_…`
by a regular expression over the raw text, loads the file, calls every
such function that is callable, records each failing assertion through
an assertion callback, prints a pass/fail report, and returns whether no
assertion failed.

The model has four modules:

- `Scanner` (`scanner.dfy`): the two `preg_match_all` scans, written as
  hand-made matchers over the text. The assert counter counts `assert(`
  case-insensitively. The name extractor matches
  `/function (test_(?:[a-z_][a-z0-9_]*))\(/im`. Both scan the way PCRE
  does: take the leftmost match, then resume after it. The lemmas show
  that this finds every occurrence or declaration. For names they show
  the exact regular-expression reading, in both directions, and source
  order.
- `Reporting` (`report.dfy`): the failure record, decimal printing of
  integers, and the report as a list of lines joined with `"\n"`
  (`PHP_EOL`). It also holds the imperative renderer that prints line by
  line into a buffer, and the CLI / `<pre>` output wrapper. In the
  failure branch a separator is printed directly under the summary line
  (src/Rein.php:61), so one stands before entry 1 as well as after every
  entry. The lemmas prove the layout: the separator count, where each numbered entry sits,
  the verdict word, that the description is never printed, and that the
  output read line by line gives back the lines.
- `Runner` (`runner.dfy`): the `run` method as an imperative method with
  the source's two nested `foreach` loops. Each loop is proved against a
  fold (`InvokeAll`, `VisitAll`) over an explicit run state. The lemmas
  about that fold cover the last-file assert count, skipped entries, the
  test count, invocation order and loading.
- `Wrappers` (`wrappers.dfy`): `Option`, used for the optional
  description and for "no readable file".

Inputs that stand for the outside world:
- the file system is a map from readable path to text;
- `is_callable` is a function of the set of paths loaded so far by
  `require_once` and the name;
- calling a test is a function from its name to the failures its
  assertions record;
- loading a file with `require_once` is a function from its path to the
  failures that the file's top-level assertions record. It runs only the
  first time the process loads a path;
- the paths the process has already included when `run` starts (what
  `get_included_files()` would list) count as loaded from the start, so
  `require_once` runs none of them again;
- the elapsed time is opaque text;
- `php_sapi_name() == 'cli'` is a boolean.

## Model

| member | source | states |
|---|---|---|
| `Scanner.CountAssertsIsOccurrences` | src/Rein.php:43 | `Scanner.CountAsserts` (through `CountAssertsFrom`) models `preg_match_all('/assert\(/im', …)`. The leftmost-match scan for `assert(` counts one for every position where `assert(` starts. The jump after a match loses nothing. |
| `Scanner.CountAssertsIgnoresCase` | src/Rein.php:43 | The assert count is case-insensitive: it equals the count over the ASCII-lower-cased text. |
| `Scanner.IdentRun` | src/Rein.php:44 | `IdentRun`, used by `Scanner.NameEnd`, models the greedy identifier part of the name pattern. The greedy `[a-z0-9_]*` takes the longest run of identifier characters. Every character in it is one, and the next character is not (or the text ends). |
| `Scanner.NameAtMeansDeclares` | src/Rein.php:44 | `Scanner.NameAt` models one match of the name pattern at a position, and `Scanner.NameOf` its capture. A match found by the matcher is `function ` (any case), then a name of the form `test_` + identifier starting with a letter or `_`, then `(`. |
| `Scanner.DeclaresMeansNameAt` | src/Rein.php:44 | Conversely, every such `function test_…(` in the text is a match of the matcher, and it captures exactly that name. The name stops at the end of the maximal identifier run. |
| `Scanner.ScanFromExact` | src/Rein.php:44-45 | `Scanner.ScanFrom` models the repeated matching of `preg_match_all`. The scan reports exactly the positions at or after its start where the pattern matches, each with its capture. A match leaves no room for an overlapping one. |
| `Scanner.ScanFromOrdered` | src/Rein.php:44-45 | Matches come in strictly increasing position: source order. |
| `Scanner.TestNamesSpec` | src/Rein.php:44-45 | `Scanner.TestNames` models `$matches[1]`. `$matches[1]` holds one name per match, in source order. Each name is preceded by `function ` and followed by `(`. Every declaration in the text is among them. |
| `Scanner.TestNamesAreTestNames` | src/Rein.php:44-45 | Every extracted name starts with `test_` in any case and continues with a non-empty identifier. |
| `Reporting.Decimal` | src/Rein.php:60-68 | Integers print as a non-empty string of digits with no leading zero. Zero prints as the single digit `0`. |
| `Reporting.DecimalRoundTrip` | src/Rein.php:60-68 | Reading a printed integer back yields the integer. |
| `Reporting.RenderReport` | src/Rein.php:57-71 | The line-by-line printing into the buffer produces exactly the report text `Join(Lines(...))`. |
| `Reporting.PrintEntries` | src/Rein.php:62-66 | The `foreach` over the failures appends to the buffer the entry lines of every failure, numbered from 1 in recording order, and nothing else. |
| `Reporting.PrintEntry` | src/Rein.php:62-66 | One turn of the failure loop appends to the buffer `N. file:line`, a tab-indented assertion line only when the assertion text is non-empty, and a separator. |
| `Reporting.PrintLine` | src/Rein.php:60-68 | One `print … . PHP_EOL` appends the line and `"\n"` to the buffer. |
| `Reporting.SeparatorCount` | src/Rein.php:59-69 | `Reporting.Separator` is `Repeat('-', SeparatorWidth)` with width 79, the model of `str_repeat('-', 79)`. The contract of `Reporting.Repeat` makes it exactly 79 dashes. With N failures the report holds exactly N+1 separator lines. With none it holds no separator. |
| `Reporting.FailureHeader` | src/Rein.php:60-66 | The failure report opens with `Failed N of A assert(s) in T test(s) - completed in S seconds.`, N being the failure count, then a separator. Every line after those two is an entry line: the rest is exactly `Entries(failures)`. This follows directly from the definition of `Lines`. |
| `Reporting.EntryPlacement` | src/Rein.php:62-66 | Failure k is printed as entry number k+1. It comes right after the lines of the failures recorded before it, in recording order. |
| `Reporting.EntryFraming` | src/Rein.php:61-65 | Every entry has a separator right before it and ends with a separator. |
| `Reporting.DescriptionNotPrinted` | src/Rein.php:62-66 | Failures that agree on file, line and assertion text give the same report, so the description is never printed. |
| `Reporting.ReportVerdict` | src/Rein.php:59-69 | The report starts with `Passed ` exactly when no failure was recorded, and with `Failed ` exactly when one was. |
| `Reporting.EmitFrames` | src/Rein.php:73-79 | Under the CLI the output is the report. Otherwise it is `<pre>` + EOL, then the unchanged report, then `</pre>` + EOL. This follows directly from the definition of `Emit`. |
| `Reporting.SplitJoin` | src/Rein.php:60-68 | Splitting the joined lines at `"\n"` gives the lines back when no line holds a line break. |
| `Reporting.OutputReadsBack` | src/Rein.php:57-79 | Read line by line, the output is the report's lines, framed by `<pre>` and `</pre>` outside the CLI. This assumes file names, assertion texts and the elapsed text hold no line break. |
| `Runner.Run` | src/Rein.php:20-82 | The loops compute the fold `VisitAll` over the normalised entries. The result is true exactly when the failure list is empty, whatever the counts. The output is the rendered report, wrapped for the channel. |
| `Runner.SingleIsOneElementList` | src/Rein.php:34 | A single path string runs exactly as the one-element list holding it. This follows directly from the definition of `Normalize`. |
| `Runner.InvokeAllEffect` | src/Rein.php:47-52 | `Runner.InvokeAll` models the inner `foreach`, and `Runner.Callable` picks the names it calls. The inner loop adds one test and one call event per callable name, duplicates included, and appends those tests' failures in invocation order. It leaves the assert count and the loaded files unchanged. |
| `Runner.CallableKeepsDuplicates` | src/Rein.php:47-52 | When every discovered name is callable, all occurrences are invoked, repeats included. |
| `Runner.CallableFromNames` | src/Rein.php:47-49 | Only discovered names that are callable at that point are invoked. |
| `Runner.AssertsOfLastReadable` | src/Rein.php:36-43 | The reported assert count is that of the last readable file only, or 0 when no file was readable. It is overwritten, not accumulated, even by a file without tests. |
| `Runner.NamelessFileOnlyCounts` | src/Rein.php:43-53 | A readable file with no extracted name changes only the assert count. It is not loaded, and nothing is invoked. This follows directly from the definition of `Visit`. |
| `Runner.UnreadableEntriesIgnored` | src/Rein.php:40-41 | `Runner.Readable` models the guard `is_string($file) && is_readable($file)`. Non-string and unreadable entries change nothing: the run over the readable entries alone ends in the same state. |
| `Runner.TestsAreInvocations` | src/Rein.php:30-52 | The test count equals the number of test calls. The failure list is the concatenation of the failures recorded by each first load of a file and by each called test, in the order they ran. |
| `Runner.InvokedAreTestNames` | src/Rein.php:44-50 | Every called name has the shape of a test name. |
| `Runner.LoadedFilesDeclareTests` | src/Rein.php:44-46 | The files included before the run stay loaded. Any other loaded file is a readable file from which at least one name was extracted, because `require_once` is reached only for those. |
| `Runner.LoadsOnce` | src/Rein.php:46 | `Runner.RequireOnce` models `require_once $file`. `require_once` runs a file's top-level code at most once per path, even when the path is listed twice. It never runs a file the process included before the run. The loaded paths are the included ones plus those with a load event. |

## Left out

- File reading and `require_once` (src/Rein.php:41-42, 46) are modelled
  only through their inputs. The file system is a map from readable path
  to text. A readable directory, which `file_get_contents` cannot read,
  is not modelled.
- Every path string counts as a distinct file, including for
  `require_once`. Two paths naming the same file are not identified.
- `Runner.TestsAreInvocations`: loading a file (src/Rein.php:46) is
  modelled only by the failures its top-level assertions record. Output
  that this code prints before the report is not modelled. A fatal error
  at load, such as a test function declared in two files, is not
  modelled. Failures recorded at load depend only on the path.
- `is_callable` and `call_user_func` (src/Rein.php:48-50) are oracles.
  Callability depends only on the loaded paths and the name, not on
  functions that earlier tests may have defined. The failures a test
  records depend only on its name, so tests that change global state for
  later tests are not modelled.
  Output that called tests print, and PHP notices they raise, is not
  modelled.
- An exception or fatal error escaping a test aborts the whole run. This
  is not modelled.
- `assert_options` and the global callback (src/Rein.php:26-32) are
  modelled only by their effect: each failing assertion appends one
  failure record. The unused `static $tokens` is left out.
- `microtime`/`round` (src/Rein.php:39, 55): the elapsed time is an
  opaque string.
- `ob_start`/`ob_get_clean`/`echo`/`php_sapi_name` (src/Rein.php:57,
  71-78): the buffer is a returned string, and the SAPI test is a
  boolean.
- `preg_match_all` returning `false` on a PCRE error, such as a
  backtracking or JIT limit, is not modelled. Both scans always succeed
  in the model.
- Text is a sequence of characters, and case folding covers ASCII
  letters only, as PCRE does without the `u` flag. Multi-byte encodings
  are not modelled.
- A `$files` argument that is neither a string nor an array (null, a
  number, an object) is not modelled.
- `Reporting.OutputReadsBack` is stated only for file names, assertion
  texts and elapsed text without line breaks. With line breaks, the
  printed report cannot be split back into its lines.
