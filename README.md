# Unused-variable detector and dashboard helpers, modelled in Dafny

This project models the core logic of a code-analysis dashboard. It has three parts.

- **The PHP unused-variable detector** (`detectUnusedVariables` in
  `examples/laravel/detect-unused-vars.php`). The function splits a file on line feeds.
  - The assignment pass skips comment lines and `protected $…` declarations. It records every
    `$name = …` capture that is neither `$this`, a superglobal nor a Laravel property name,
    together with its 1-based line.
  - The usage pass records every name the usage pattern captures, except `$this` and the
    superglobals.
  - The function then returns one finding per recorded assignment of each name that never got a
    usage entry.

  The regular expressions become character scanners that follow PCRE's matching:
  - the assignment pattern consumes the character after `=`;
  - the usage pattern backtracks into the identifier when `= …` follows it.

  `UnusedVariables.DetectUnusedVariables` keeps the three loops of the source. It is proved to
  return `UnusedFindings(content)`, a recursive definition. The facts module then proves what that
  definition promises: which findings exist, how many per line, in which order, and in what shape.
- **The dashboard's configuration lookups** (`getComplexityLevel` and `getLanguageConfig` in
  `examples/nodejs/public/js/config.js`), with the tables they read.
- **The pure helpers of the analysis table component** (`examples/nodejs/components/AnalysisTable.js`):
  - the column table and the `sortOrder` validator;
  - the `handleSort` payload;
  - the issue-count class and label;
  - the status label;
  - URL truncation.

Both JavaScript lookups read an object literal with `obj[key]`, which also finds the members
every object inherits from `Object.prototype`. `JsObjects.LookupProperty` models that lookup.
The functions used by the rest of the model read only the own entries. The `…AsWritten`
variants keep the inherited members, and two of them show a discrepancy (see "## Findings").

Files:
- `wrappers.dfy`: Option.
- `decimal.dfy`: the decimal rendering of line numbers.
- `sequences.dfy`: associativity of sequence concatenation, for the proof of the assignment loop.
- `scanner.dfy`: line splitting, trim, the skip rule and the two patterns.
- `detector.dfy`: the detector and its specification functions.
- `detector_facts.dfy`: the properties of the detector.
- `js_objects.dfy`: the object lookup and toLowerCase.
- `config.dfy`: the two configuration lookups.
- `analysis_table.dfy`: the table component's helpers.

## Model

| member | source | states |
|---|---|---|
| PhpScanner.SplitLines | examples/laravel/detect-unused-vars.php:32 | There is always at least one line, and no line holds a line feed. Joining the lines with line feeds gives the content back. |
| PhpScanner.LineCount | examples/laravel/detect-unused-vars.php:32 | There is one more line than the content has line feeds. |
| PhpScanner.SplitJoin | examples/laravel/detect-unused-vars.php:32 | Splitting lines that were joined with line feeds gives the same lines back. |
| PhpScanner.TrimLeft | examples/laravel/detect-unused-vars.php:53 | The result is a suffix of the input. Everything removed is a trim character, and the result does not start with one. |
| PhpScanner.TrimRight | examples/laravel/detect-unused-vars.php:53 | The result is a prefix of the input. Everything removed is a trim character, and the result does not end with one. |
| PhpScanner.Trim | examples/laravel/detect-unused-vars.php:53 | The result neither starts nor ends with a trim character, holds only characters of the input, and is empty exactly when the input is all trim characters. |
| PhpScanner.TrimIndented | examples/laravel/detect-unused-vars.php:53 | Leading trim characters are exactly what trim() removes in front of the first other character. |
| PhpScanner.CommentLineSkipped | examples/laravel/detect-unused-vars.php:53-55 | A line whose first non-blank text is `//` or `*` is skipped by the assignment pass, however it is indented. |
| PhpScanner.ProtectedPropertySkipped | examples/laravel/detect-unused-vars.php:57-60 | A line holding `protected`, at least one whitespace character, then `$`, anywhere in the line and whatever precedes it, is skipped by the assignment pass. |
| PhpScanner.SkipsAssignments | examples/laravel/detect-unused-vars.php:53-60 | A skipped line holds `/` or `*`, or declares a protected property; the positive cases are the two lemmas above. |
| PhpScanner.AssignMatchAt | examples/laravel/detect-unused-vars.php:36 | A match of the assignment pattern at p starts with `$`, captures an identifier and ends within the line. |
| PhpScanner.AssignMatchSound | examples/laravel/detect-unused-vars.php:36 | The match returned is one of the ways the assignment pattern can match at p. |
| PhpScanner.AssignMatchGreedy | examples/laravel/detect-unused-vars.php:36 | Every way the pattern can match at p has the returned capture and ends no later than the returned match (PCRE's greedy choice). If no match is returned, the pattern cannot match at p. |
| PhpScanner.ShapeIsMaximal | examples/laravel/detect-unused-vars.php:36 | Any match of the assignment pattern captures the whole identifier run, and its `=` follows the spaces after that run. |
| PhpScanner.UseMatchAt | examples/laravel/detect-unused-vars.php:38 | A usage match at p is a capture that the negative lookahead accepts, and the match ends right after the capture. |
| PhpScanner.UseMatchLongest | examples/laravel/detect-unused-vars.php:38 | Every capture the usage pattern can make at p is no longer than the returned one. If nothing is returned, no capture is possible. |
| PhpScanner.AssignNamesFrom | examples/laravel/detect-unused-vars.php:62-64 | Every name preg_match_all captures with the assignment pattern is an identifier. |
| PhpScanner.UseNamesFrom | examples/laravel/detect-unused-vars.php:77-78 | Every name preg_match_all captures with the usage pattern is an identifier. |
| PhpScanner.AssignNamesSound | examples/laravel/detect-unused-vars.php:62-64 | Every name the scan from p captures is the capture of one way the assignment pattern matches at some `$` at or after p. |
| PhpScanner.UseNamesSound | examples/laravel/detect-unused-vars.php:77-78 | Every name the scan from p captures is a capture the usage pattern's lookahead accepts at some `$` at or after p. |
| PhpScanner.AssignNames | examples/laravel/detect-unused-vars.php:62-64 | Every name captured on a line is the capture of a way the assignment pattern matches on that line. |
| PhpScanner.UseNames | examples/laravel/detect-unused-vars.php:77-78 | Every name captured on a line is a capture the usage pattern accepts on that line. |
| PhpScanner.NoDollarNoNames | examples/laravel/detect-unused-vars.php:62-78 | A line with no `$` from p on yields no capture from p on, for either pattern. |
| PhpScanner.UseMatchStopsAtDollar | examples/laravel/detect-unused-vars.php:38 | A usage match ends right after its identifier, so it never reaches a later `$`. |
| PhpScanner.UseNamesComplete | examples/laravel/detect-unused-vars.php:77-78 | The scan from p captures the usage match at every `$` at or after p. |
| PhpScanner.AssignMatchStopsAtDollar | examples/laravel/detect-unused-vars.php:36 | An assignment match runs past a later `$` only by taking that `$` as its final `[^=]` character. |
| PhpScanner.AssignNamesComplete | examples/laravel/detect-unused-vars.php:62-64 | The scan from p captures the assignment match at every `$` at or after p that no match starting in between took as its final `[^=]`. |
| PhpScanner.SwallowNeedsEquals | examples/laravel/detect-unused-vars.php:36 | A match that takes the `$` after `pre` as its final `[^=]` needs `pre` to end with `=` and spaces. |
| PhpScanner.AssignmentRecorded | examples/laravel/detect-unused-vars.php:62-64 | An assignment match at the `$` after `pre` is captured by the line's scan unless `pre` ends with `=` and spaces. |
| PhpScanner.LineNamesComplete | examples/laravel/detect-unused-vars.php:62-78 | On any line, every usage match is captured. Every assignment match is captured unless the text before its `$` ends with `=` and spaces. |
| PhpScanner.WrittenAfterPrefix | examples/laravel/detect-unused-vars.php:36-38 | In `pre + "$" + x + w + op + rest`, the `$`, x, w and op stand right after `pre`. The next two lemmas therefore cover these lines. |
| PhpScanner.ComparisonIsUse | examples/laravel/detect-unused-vars.php:36-38 | Wherever `$x` followed by spaces and `==` stands in a line, whatever precedes it, no assignment match starts at that `$`. The usage pattern captures the whole of x there, and the line's usage captures include x. |
| PhpScanner.ComparisonNotAssignment | examples/laravel/detect-unused-vars.php:36 | A `$` whose identifier and spaces run into `==` starts no assignment match. |
| PhpScanner.ComparisonUseMatch | examples/laravel/detect-unused-vars.php:38 | At such a `$` the usage pattern captures the whole identifier. |
| PhpScanner.AssignmentBacktracksUse | examples/laravel/detect-unused-vars.php:36-38 | Wherever `$x` followed by spaces, `=` and a character other than `=` stands in a line, the assignment pattern captures x at that `$`. The usage pattern captures x without its last character there, or nothing when x has one character, and the line's usage captures include that shorter name. The line's assignment captures include x unless the text before the `$` ends with `=` and spaces. |
| PhpScanner.AssignmentMatch | examples/laravel/detect-unused-vars.php:36 | At such a `$` the assignment pattern matches and captures the whole identifier. |
| PhpScanner.AssignmentUseBacktracks | examples/laravel/detect-unused-vars.php:38 | At such a `$` the usage pattern's lookahead fails after the whole identifier, so it backtracks one character. |
| PhpScanner.ChainedAssignmentRecordsFirst | examples/laravel/detect-unused-vars.php:36 | In `$a = $b = 1` only a is captured as assigned, because the first match consumes the `$` of `$b`. |
| PhpScanner.ArrowIsAssignmentShape | examples/laravel/detect-unused-vars.php:36-38 | `$k => $v` records k as assigned and only v as used. |
| Decimal.FromNat | examples/laravel/detect-unused-vars.php:94 | The decimal text of a line number is non-empty, all digits, and has no leading zero. |
| Decimal.ToNatFromNat | examples/laravel/detect-unused-vars.php:94 | Reading the decimal text back gives the number. |
| Decimal.FromNatInjective | examples/laravel/detect-unused-vars.php:94 | Distinct line numbers give distinct texts in the message. |
| UnusedVariables.UnusedVariableFinding | examples/laravel/detect-unused-vars.php:90-95 | A finding has type `unused_variable`, the name, the line, and the message `Unused variable '$name' on line n` with n in decimal. |
| UnusedVariables.UnusedFindings | examples/laravel/detect-unused-vars.php:30-101 | Every finding is of type `unused_variable` and names a variable with no usage entry. |
| UnusedVariables.ReportSkipsUsed | examples/laravel/detect-unused-vars.php:87-97 | The third loop's output never names a variable with a usage entry. |
| UnusedVariables.InListIsMembership | examples/laravel/detect-unused-vars.php:66-67 | The in_array search finds a name exactly when the list holds it. |
| UnusedVariables.FindingsFor | examples/laravel/detect-unused-vars.php:89-96 | There is one finding per recorded line, in the order of the lines, each with that line and its message. |
| UnusedVariables.CollectAssignments | examples/laravel/detect-unused-vars.php:49-72 | The first loop leaves the keys of `$assignedVars` in insertion order, and each key maps to its recorded lines. Both equal the specification over all recorded sites. |
| UnusedVariables.RecordAssignments | examples/laravel/detect-unused-vars.php:62-70 | The captures of one line that are not ignored are added as sites. A new name is appended to the keys and the line is appended to its list. |
| UnusedVariables.RecordSite | examples/laravel/detect-unused-vars.php:68 | Recording one site appends a new name to the keys and appends the site's line to that name's lines. Nothing else changes. |
| UnusedVariables.CollectUses | examples/laravel/detect-unused-vars.php:74-84 | The keys of `$usedVars` are exactly the names that some line's usage capture records and that are not special variables. |
| UnusedVariables.RecordUses | examples/laravel/detect-unused-vars.php:77-83 | One line adds its usage captures to the keys, leaving out the special variables. |
| UnusedVariables.ReportUnused | examples/laravel/detect-unused-vars.php:86-98 | The third loop returns, in key order, the findings for every line of each key that has no usage entry. |
| UnusedVariables.ReportLines | examples/laravel/detect-unused-vars.php:89-96 | The inner loop produces one finding per recorded line, in order. |
| UnusedVariables.DetectUnusedVariables | examples/laravel/detect-unused-vars.php:30-101 | The function returns exactly `UnusedFindings(content)`, the specification that the facts below describe. |
| UnusedVariablesFacts.AssignmentIgnoresAreBothLists | examples/laravel/detect-unused-vars.php:66-67 | The assignment pass's single ignore list is exactly the two lists it checks. |
| UnusedVariablesFacts.TrackedAssignmentsMembers | examples/laravel/detect-unused-vars.php:62-69 | A line records a site exactly when it captures the name, the site carries that line, and the name is not ignored. |
| UnusedVariablesFacts.SitesMembers | examples/laravel/detect-unused-vars.php:51-72 | A site is recorded exactly when its line exists and that line, if not skipped, records it. |
| UnusedVariablesFacts.SitesAscend | examples/laravel/detect-unused-vars.php:51-68 | Every recorded line number is between 1 and the number of lines, and sites are recorded in line order. |
| UnusedVariablesFacts.TrackedUsesMembers | examples/laravel/detect-unused-vars.php:77-81 | A usage capture gives a usage entry exactly when the name is not special. |
| UnusedVariablesFacts.UsedNamesSound | examples/laravel/detect-unused-vars.php:76-84 | A name with a usage entry is not special, and some line captures it. |
| UnusedVariablesFacts.UsedNamesComplete | examples/laravel/detect-unused-vars.php:76-84 | A name that any line captures gets a usage entry unless it is special. |
| UnusedVariablesFacts.FirstSeenMembers | examples/laravel/detect-unused-vars.php:68 | The keys of `$assignedVars` are exactly the recorded names. |
| UnusedVariablesFacts.FirstSeenDistinct | examples/laravel/detect-unused-vars.php:68 | No key appears twice. |
| UnusedVariablesFacts.FirstSeenGrows | examples/laravel/detect-unused-vars.php:68 | A key keeps its position as more sites are recorded. |
| UnusedVariablesFacts.FirstSeenByFirstSite | examples/laravel/detect-unused-vars.php:68 | Keys are ordered by first assignment: a name first assigned earlier has the earlier key. |
| UnusedVariablesFacts.LinesOfMembers | examples/laravel/detect-unused-vars.php:68 | A line is in a key's list exactly when a site for that name on that line was recorded. |
| UnusedVariablesFacts.LinesOfCount | examples/laravel/detect-unused-vars.php:68 | A key's list holds a line as many times as that site was recorded. |
| UnusedVariablesFacts.LinesOfAscend | examples/laravel/detect-unused-vars.php:68 | Each key's list of lines is ascending. |
| UnusedVariablesFacts.ReportMembers | examples/laravel/detect-unused-vars.php:87-97 | A finding is reported exactly when its name is a key with no usage entry, its line is in the key's list, and it has the finding's fixed shape. |
| UnusedVariablesFacts.ReportIff | examples/laravel/detect-unused-vars.php:87-97 | A finding is reported exactly when its name and line form a recorded site and the name has no usage entry. |
| UnusedVariablesFacts.ReportOfVariable | examples/laravel/detect-unused-vars.php:87-97 | The findings about one name are all of its lines, in order, when it is unused, and none otherwise. |
| UnusedVariablesFacts.ReportGrouped | examples/laravel/detect-unused-vars.php:87-97 | Findings are grouped by name, and the names follow key order. |
| UnusedVariablesFacts.TrackedAssignmentsCount | examples/laravel/detect-unused-vars.php:62-69 | A name captured k times on a line, and not ignored, is recorded k times for that line. |
| UnusedVariablesFacts.SitesCount | examples/laravel/detect-unused-vars.php:51-72 | A site is recorded as many times as its own line records it. Sites on lines that do not exist are never recorded. |
| UnusedVariablesFacts.FindingsOfLinesIff | examples/laravel/detect-unused-vars.php:30-101 | For any lines and ignore lists, a finding exists exactly for a recorded site whose name has no usage entry. |
| UnusedVariablesFacts.LineSiteIff | examples/laravel/detect-unused-vars.php:53-69 | A line records a site exactly when it is not skipped, captures the name, and the name is not ignored. |
| UnusedVariablesFacts.LineWithinContent | examples/laravel/detect-unused-vars.php:32 | Every finding's line is between 1 and the number of line feeds plus one. |
| UnusedVariablesFacts.FindingsOfLinesSound | examples/laravel/detect-unused-vars.php:30-101 | Every finding comes from a recorded site of an unused name and has the fixed shape. |
| UnusedVariablesFacts.FindingsOfLinesComplete | examples/laravel/detect-unused-vars.php:30-101 | Every recorded site of an unused name gives a finding. |
| UnusedVariablesFacts.ReportedOnBridge | examples/laravel/detect-unused-vars.php:53-69 | The condition for a report, stated with the source's two lists, is the generic condition with the combined list. |
| UnusedVariablesFacts.UnusedFindingSound | examples/laravel/detect-unused-vars.php:30-101 | Every returned finding is for a name captured as assigned on an unskipped line. The name is not ignored, no line gives it a usage entry, and the finding has the fixed shape. |
| UnusedVariablesFacts.UnusedFindingComplete | examples/laravel/detect-unused-vars.php:30-101 | Every such assignment gives a finding. |
| UnusedVariablesFacts.UnusedFindingIff | examples/laravel/detect-unused-vars.php:30-101 | Both directions together: a finding is returned exactly when the report condition holds for its name and line and the finding has the fixed shape. |
| UnusedVariablesFacts.FindingShape | examples/laravel/detect-unused-vars.php:90-95 | Every finding has type `unused_variable`, a bare identifier as variable, and the message `Unused variable '$name' on line n`. |
| UnusedVariablesFacts.MessageIdentifiesSite | examples/laravel/detect-unused-vars.php:94 | Two findings with the same message have the same name and the same line. |
| UnusedVariablesFacts.IgnoredNeverReported | examples/laravel/detect-unused-vars.php:66-67 | `$this`, the superglobals and the Laravel property names are never reported. |
| UnusedVariablesFacts.SkippedLineNotReported | examples/laravel/detect-unused-vars.php:53-60 | No finding points at a comment line, a doc-block line or a protected declaration. |
| UnusedVariablesFacts.UseAnywhereSilences | examples/laravel/detect-unused-vars.php:76-88 | A name that the usage pattern captures on any line, comment lines included, is never reported. |
| UnusedVariablesFacts.NeverAssignedNeverReported | examples/laravel/detect-unused-vars.php:62-68 | A name that no unskipped line captures as assigned is never reported. |
| UnusedVariablesFacts.NoAssignmentsNoFindings | examples/laravel/detect-unused-vars.php:50-100 | Content in which no line captures an assignment gives no findings. |
| UnusedVariablesFacts.EmptyContentNoFindings | examples/laravel/detect-unused-vars.php:32 | Empty content gives no findings. |
| UnusedVariablesFacts.UnusedFindingsGrouped | examples/laravel/detect-unused-vars.php:87-97 | Returned findings are grouped by name, and the names follow the order of first recorded assignment. |
| UnusedVariablesFacts.FindingsOfLinesForVariable | examples/laravel/detect-unused-vars.php:87-97 | The findings about one name are all of its recorded lines in ascending order when it is unused, and none otherwise. |
| UnusedVariablesFacts.FindingsForLines | examples/laravel/detect-unused-vars.php:89-96 | The findings for a list of lines carry exactly those lines, in order. |
| UnusedVariablesFacts.FindingsOfLinesCount | examples/laravel/detect-unused-vars.php:87-97 | An unused name is reported on a line as many times as that site was recorded. |
| UnusedVariablesFacts.SitesOnLineCount | examples/laravel/detect-unused-vars.php:51-70 | An unskipped line records a name that is not ignored as many times as the line captures it. |
| UnusedVariablesFacts.LineAssignmentsCount | examples/laravel/detect-unused-vars.php:62-69 | An unskipped line records a site for a name as many times as it captures the name. |
| UnusedVariablesFacts.FindingCountOnLines | examples/laravel/detect-unused-vars.php:62-96 | For any lines, an unused name is reported on line n as many times as line n captures it. |
| UnusedVariablesFacts.FindingCount | examples/laravel/detect-unused-vars.php:62-96 | One finding per capture: a name assigned twice on one line is reported twice for that line. |
| JsObjects.LookupProperty | examples/nodejs/public/js/config.js:103 | `obj[key]` yields the own property when there is one. Otherwise it yields the inherited member for a name Object.prototype defines, and undefined for anything else. |
| JsObjects.ToLowerCase | examples/nodejs/public/js/config.js:103 | Lower-casing keeps the length and maps each ASCII capital to its small letter, leaving every other character. |
| JsObjects.LowerCasing | examples/nodejs/public/js/config.js:103 | Any casing of a lower-case word lower-cases to that word. |
| DashboardConfig.Info | examples/nodejs/public/js/config.js:89-94 | Only CRITICAL has no upper bound, and every level has a colour and a label. |
| DashboardConfig.LevelBoundsAscend | examples/nodejs/public/js/config.js:89-94 | The bounds rise strictly in table order, ending in CRITICAL's unbounded one. |
| DashboardConfig.GetComplexityLevel | examples/nodejs/public/js/config.js:116-123 | The level returned admits the score, and no earlier level in table order does. |
| DashboardConfig.ComplexityThresholds | examples/nodejs/public/js/config.js:89-93 | Scores up to 3 are low, 4 to 7 medium, 8 to 10 high, and above 10 critical. |
| DashboardConfig.ComplexityMonotone | examples/nodejs/public/js/config.js:116-123 | A higher score never gets a lower level. |
| DashboardConfig.Fallback | examples/nodejs/public/js/config.js:104-108 | The fallback has the document icon and the grey colour. Its name is `Unknown` exactly when the input is missing, empty or itself `Unknown`; any other non-empty input is its display name. |
| DashboardConfig.LookupKey | examples/nodejs/public/js/config.js:103 | There is a key exactly when the input is given, and it is the lower-case word of which the input is a casing. |
| DashboardConfig.GetLanguageConfig | examples/nodejs/public/js/config.js:102-108 | The result is a table entry or the fallback, and its display name is never empty. A lower-cased input that is a key gives that key's entry; any other non-empty input gives the fallback displaying the input as given. |
| DashboardConfig.LanguageCaseInsensitive | examples/nodejs/public/js/config.js:60-86 | Any casing of a table key yields that key's entry. |
| DashboardConfig.PhpDisplayName | examples/nodejs/public/js/config.js:61-65 | `PHP` and `php` both display as `PHP`, and `TypeScript` displays as `TypeScript`. |
| DashboardConfig.LanguageKnownIff | examples/nodejs/public/js/config.js:102-108 | A table entry is returned exactly when the lower-cased input is a table key. |
| DashboardConfig.GetLanguageConfigAsWritten | examples/nodejs/public/js/config.js:103-104 | The lookup as written agrees with GetLanguageConfig whenever it yields a configuration. It yields an inherited member exactly when the lower-cased input is not a key but names an Object.prototype member. |
| DashboardConfig.ConstructorLanguageCounterexample | examples/nodejs/public/js/config.js:103-104 | As written, `Constructor` yields the inherited `constructor` member instead of a configuration. |
| DashboardConfig.ConstructorLanguageCorrected | examples/nodejs/public/js/config.js:103-108 | With own entries only, `Constructor` yields the fallback with display name `Constructor`. |
| AnalysisTable.ColumnsFacts | examples/nodejs/components/AnalysisTable.js:207-215 | Only the actions column is unsortable and column keys are distinct. The default sort column exists and is sortable, and the default order passes the validator at line 188. |
| AnalysisTable.HandleSort | examples/nodejs/components/AnalysisTable.js:224-239 | The payload names the clicked column and always has a valid order. Another column starts at `asc`, and the sorted column flips its order. |
| AnalysisTable.SortToggleTwice | examples/nodejs/components/AnalysisTable.js:227-232 | Clicking the sorted column twice gives back the original valid order. |
| AnalysisTable.GetIssuesClass | examples/nodejs/components/AnalysisTable.js:339-344 | The class is none exactly for 0; low for other counts up to 5, negatives included; medium for 6 to 15; high above. |
| AnalysisTable.IssuesClassMonotone | examples/nodejs/components/AnalysisTable.js:339-344 | More issues never give a milder class. |
| AnalysisTable.GetIssuesLabel | examples/nodejs/components/AnalysisTable.js:349-353 | The label is singular exactly for 0 and 1, and plural otherwise. |
| AnalysisTable.GetStatusText | examples/nodejs/components/AnalysisTable.js:308-316 | A known status gets its label, and any other status is returned unchanged. |
| AnalysisTable.StatusTextIdempotent | examples/nodejs/components/AnalysisTable.js:308-316 | Applying the status label twice changes nothing, because no label is itself a status. |
| AnalysisTable.GetStatusTextAsWritten | examples/nodejs/components/AnalysisTable.js:315 | The lookup as written agrees with GetStatusText whenever it yields text. It yields an inherited member exactly for an unknown status that names an Object.prototype member. |
| AnalysisTable.ToStringStatusCounterexample | examples/nodejs/components/AnalysisTable.js:315 | As written, status `toString` yields the inherited function. The corrected lookup returns `toString`. |
| AnalysisTable.TruncateUrl | examples/nodejs/components/AnalysisTable.js:387-390 | The result is never longer than 30 characters. A missing URL gives empty text, and a URL of at most 30 characters is kept. A longer one becomes its first 27 characters followed by `...`. |
| AnalysisTable.TruncateUrlIdempotent | examples/nodejs/components/AnalysisTable.js:387-390 | Truncating a truncated URL changes nothing. |

## Left out

- Reading the file and the command-line wrapper around `detectUnusedVariables` (detect-unused-vars.php lines 9-25 and 103-127) are I/O and printing. The model starts from the file's content as a string.
- UnusedVariables.DetectUnusedVariables: the `$filename` parameter is never read by the source. It is kept only in the signature.
- UnusedVariables.CollectUses: states only the keys of `$usedVars`. The line lists stored as its values are never read by the source.
- PhpScanner.AssignMatchAt: characters stand for bytes, and the model does not represent encodings. PHP strings are byte strings. Every capture is ASCII. The closing `[^=]` can consume the first byte of a multi-byte character, but the next search then resumes at a continuation byte, which is never `$`, so the captures are the same.
- The ignore lists are passed to the passes as parameters, and the detector passes the source's lists. The combined list is proved to be exactly the two lists the source checks.
- DashboardConfig.GetComplexityLevel: takes an integer score. JavaScript scores are doubles. A fractional score compares the same way. `null`, `undefined` and NaN are not modelled: `null` compares as 0 and gives LOW, while for `undefined` and NaN every comparison fails and the source returns CRITICAL.
- DashboardConfig.GetComplexityLevel: returns the level. The object it designates is `Info(level)`, with its `max`, `color` and `label`.
- JsObjects.ToLowerCase: lower-cases only ASCII letters. That is exact for matching the table's ASCII keys; other characters keep their case in the model.
- DashboardConfig.GetLanguageConfig: takes an optional string. Non-string inputs, which would throw on `toLowerCase`, are not modelled.
- AnalysisTable.TruncateUrl: counts characters, not UTF-16 code units. They differ only for characters outside the Basic Multilingual Plane.
- AnalysisTable.GetIssuesClass: takes an integer count. Fractional counts are not modelled.
- AnalysisTable.HandleSort: models the emitted payload only. `debugLog` and the `$emit` event delivery are side effects.
- The component's other methods are not part of this model. They format dates through `Date` and `Intl` (clock and locale), build styles from the lookups, or confirm through the browser. These are getRelativeTime, formatDate, getComplexityStyle, the getLanguage* wrappers and the action handlers.

## Findings

| source | as written | input that shows it | evidently intended | confidence | as-written member | corrected member |
|---|---|---|---|---|---|---|
| examples/nodejs/public/js/config.js:103-104 | `LANGUAGE_CONFIG[language?.toLowerCase()]` also finds Object.prototype members, and they are truthy, so the fallback is skipped | `getLanguageConfig("Constructor")` returns the `Object` constructor function, which has no icon, colour or display name | the fallback entry with display name `Constructor`, as for any other unknown language | high for the lookup, not executed | DashboardConfig.ConstructorLanguageCounterexample | DashboardConfig.ConstructorLanguageCorrected |
| examples/nodejs/components/AnalysisTable.js:315 | `statusMap[status] \|\| status` also finds Object.prototype members | `getStatusText("toString")` returns a function instead of the text `toString` | an unknown status is shown unchanged | high for the lookup, low for impact (statuses come from the server), not executed | AnalysisTable.ToStringStatusCounterexample | AnalysisTable.GetStatusText |
