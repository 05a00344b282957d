# logging-plugins, modelled in Dafny

This project models the two decision layers of the `logging_plugins`
package.

The first layer is the library (`src/logging_plugins/__init__.py`):
- level-name parsing (`parse_level`, `LEVELNO_TO_STR`);
- signal-name normalisation (`parse_signal`);
- the record filters `SkipException`, `SkipExceptionMsg`,
  `SkipExceptionMsgRateLimit`, `RateLimiterFilter`, `OnlyExcFilter` and
  `LevelRangeFilter`;
- the `CounterHandler`, which counts records per label, stamps each label
  with its last record's time, and renders the sorted text dump.

The second layer is the health check (`src/logging_plugins/cli.py`):
- `_get_m_time`;
- the polling for a fresh dump;
- reading a text dump back into count and last-record tables;
- `parse_rule`;
- the rule loop with its `ANY` aggregation (sum of counts, latest record);
- the exit-status encoding: 0 when every rule holds, 2 when the dump never
  changes, 3 + i when rule i is the first to fail.

Everything is a pure function over immutable datatypes. A Python exception
becomes the `Err` case of a `Result`. The parts the code delegates to other
code are parameters:
- the resolution of configured class names, whether the object a name
  resolves to is a class, and the subclass relation (`Records.ClassTable`);
- regular-expression matching (`reMatch`);
- the `ratelimit` limiter, as a state machine `admit: S -> (bool, S)`;
- the JSON decoder;
- the signal module's name table;
- `os.stat` at each polling attempt;
- `os.kill`'s success;
- the clock.

Modules, one per file:

| file | module | what it holds |
|---|---|---|
| results.dfy | Results | `Option` and `Result` |
| strings.dfy | Strings | `str.split` on one character, `splitlines`, ASCII `upper`/`lower`, `startswith`, substring containment |
| numbers.dfy | Numbers | `%d`, `%.3f` of a millisecond time, `int()`, a decimal subset of `float()` |
| ordering.dfy | Ordering | Python's `str` ordering, `sorted(keys)`, `sum` and `max` of a table's values |
| records.dfy | Records | log records, exception info, the class table |
| levels.dfy | Levels | `STANDARD_LEVELS`, `LEVELNO_TO_STR`, `parse_level`, `parse_signal` |
| filters.dfy | Filters | the six filters and their use on record streams |
| counter.dfy | Counter | `CounterHandler.emit` and `dump_text` |
| dumpreader.dfy | DumpReader | how `check_log_dump` reads a dump file |
| rules.dfy | Rules | `parse_rule` and the rule loop |
| check.dfy | Check | `_get_m_time`, the polling and `check_log_dump` end to end |

Times:
- The handler's clock is whole milliseconds (`nat`), so the `%.3f`
  rendering is exact.
- The reader and the rules work on exact decimals (`real`), in seconds.

## Model

| member | source | states |
|---|---|---|
| Levels.DictDisplayLastWins | src/logging_plugins/__init__.py:14-21 | a dict display has one key per distinct entry key, and each key holds the value of its last entry |
| Levels.LevelNoToStrContents | src/logging_plugins/__init__.py:14-21 | `LEVELNO_TO_STR` maps 10, 20, 30, 40, 50 to DEBUG, INFO, WARNING, ERROR and FATAL; the FATAL entry replaces CRITICAL at 50 |
| Levels.ParseLevel | src/logging_plugins/__init__.py:24-31 | succeeds iff the argument is a standard level name or an int; an int passes unchanged; a standard name gives its number in Python's `logging` module (the `LevelByName` table); anything else is an error |
| Levels.LowerLevelNumbers | src/logging_plugins/__init__.py:24-31 | NOTSET parses to 0, DEBUG to 10, INFO to 20 and WARNING to 30 |
| Levels.UpperLevelNumbers | src/logging_plugins/__init__.py:24-31 | WARN parses to 30, ERROR to 40, CRITICAL and FATAL to 50 |
| Levels.ParseLevelOfLevelName | src/logging_plugins/__init__.py:12-31 | every name the counter gives a level parses back to that level |
| Levels.ParseLevelError | tests/test_logging_plugins.py:20-21 | "ERROR" parses to 40; the lower-case "error" is rejected |
| Levels.NormaliseSignalName | src/logging_plugins/__init__.py:38-40 | the looked-up name is the upper-cased name when that already starts with SIG, and SIG followed by the upper-cased name otherwise |
| Levels.ParseSignal | src/logging_plugins/__init__.py:34-42 | an int passes unchanged; a name succeeds iff its normalised form is in the signal table, and then gives that entry |
| Levels.NormaliseIdempotent | src/logging_plugins/__init__.py:38-40 | normalising twice is normalising once |
| Levels.NormaliseIgnoresCase | src/logging_plugins/__init__.py:38-40 | names equal up to letter case normalise alike |
| Levels.NormalisePrefixOptional | src/logging_plugins/__init__.py:38-40 | a SIG prefix in any case does not change the normalised name |
| Levels.Usr2Spellings | src/logging_plugins/__init__.py:34-42 | "usr2", "USR2" and "sigusr2" all resolve to SIGUSR2 |
| Strings.JoinSplit | src/logging_plugins/__init__.py:73 | joining the pieces of a split gives back the original text |
| Strings.SplitJoin | src/logging_plugins/cli.py:18 | splitting a join of separator-free pieces recovers the pieces |
| Strings.SplitLinesOfLines | src/logging_plugins/cli.py:56 | `splitlines` gives back the lines of a text where each line ends in a newline and holds no line boundary |
| Strings.SplitLinesFree | src/logging_plugins/cli.py:56 | no line `splitlines` returns holds a line boundary |
| Strings.Contains | src/logging_plugins/__init__.py:112 | `needle in hay` holds iff the needle occurs at some position of the text |
| Strings.UpperIdempotent | src/logging_plugins/__init__.py:38 | upper-casing twice is upper-casing once |
| Numbers.ParseIntOfString | src/logging_plugins/cli.py:59 | `int()` reads back the integer `%d` wrote |
| Numbers.IntToStringInjective | src/logging_plugins/__init__.py:182 | `%d` never renders two integers alike |
| Numbers.CanonicalIntUnique | src/logging_plugins/__init__.py:182 | a canonical string (no leading zero, no "-0") that `int()` reads as i is exactly `%d` of i |
| Numbers.ParseDecimalOfInt | src/logging_plugins/cli.py:31 | `float()` of a `%d` rendering is the same number |
| Numbers.ParseDecimalOfMillis | src/logging_plugins/cli.py:60 | `float()` reads back the `%.3f` rendering of a millisecond time as the time in seconds |
| Ordering.BelowTransitive | src/logging_plugins/__init__.py:192 | string order is transitive |
| Ordering.BelowTotal | src/logging_plugins/__init__.py:192 | any two distinct strings are ordered one way or the other |
| Ordering.SortedKeys | src/logging_plugins/__init__.py:192 | `sorted(keys)` lists every key exactly once, in strictly ascending order |
| Ordering.SortedUnique | src/logging_plugins/__init__.py:192 | a set of strings has exactly one strictly ascending listing |
| Ordering.SumSetPick | src/logging_plugins/cli.py:70 | the sum of a table's values does not depend on the order the keys are taken in |
| Ordering.SumSetBump | src/logging_plugins/__init__.py:185 | adding an amount at one key, new or old, adds that amount to the sum |
| Ordering.SumSetBound | src/logging_plugins/cli.py:70 | with non-negative values the sum is at least each single value |
| Ordering.MaxSet | src/logging_plugins/cli.py:70 | the max of a non-empty table is one of its values and no value exceeds it |
| Filters.ExceptionNames | src/logging_plugins/__init__.py:72-75 | the configured names are comma-free, at least one, and join back with commas to the given string |
| Filters.ExceptionNamesUnique | src/logging_plugins/__init__.py:72-75 | those names are the only comma-free list that joins back to the string |
| Filters.ExceptionNamesUntrimmed | src/logging_plugins/__init__.py:72-75 | pieces are not trimmed: "RuntimeError, ValueError" gives " ValueError" with its blank |
| Filters.ResolveAll | src/logging_plugins/__init__.py:79-82 | every configured name resolves, in order, or the error names an unresolvable configured name |
| Filters.AnySuperclass | src/logging_plugins/__init__.py:86-88 | the loop answers False iff every `issubclass` call answers False; otherwise its answer is that of the first call that does not answer False, a match or a TypeError |
| Filters.SkipExceptionKeep | src/logging_plugins/__init__.py:84-89 | a record without exception info is kept. Otherwise a resolution error comes first; then the record is kept iff every `issubclass` answer is False, and the first other answer decides: a match drops it, and a TypeError (a None record class, or a configured object that is not a class) is the error |
| Filters.AnyPatternMatches | src/logging_plugins/__init__.py:107-113 | the pattern loop answers true iff some pattern matches the exception text |
| Filters.SkipExceptionMsgKeep | src/logging_plugins/__init__.py:101-114 | with no patterns it is the base decision; otherwise it drops iff the base drops and some pattern matches (regex or substring); it never drops what the base keeps; the base filter's error is its error |
| Filters.SkipExceptionMsgRateLimitKeep | src/logging_plugins/__init__.py:127-135 | a record the message filter keeps is kept and the limiter is left untouched; any other record gets exactly the limiter's answer |
| Filters.RunRateLimiter | src/logging_plugins/__init__.py:146-150 | a `RateLimiterFilter` passes exactly the records at the positions the limiter's answers admit |
| Filters.RateLimiterKeepIgnoresRecord | src/logging_plugins/__init__.py:146-150 | a `RateLimiterFilter`'s answer and the state it leaves do not depend on the record |
| Filters.RateLimiterIgnoresRecords | src/logging_plugins/__init__.py:146-150 | two streams of equal length pass in equal numbers and leave the limiter in the same state |
| Filters.RunSkipRateLimit | src/logging_plugins/__init__.py:127-135 | over a stream, the run fails iff some record gets no decision; the limiter is consulted once per record the message filter drops, and the output's length is the kept records plus the admitted ones |
| Filters.RunSkipRateLimitSelects | src/logging_plugins/__init__.py:127-135 | the output is, in order, exactly the records the message filter keeps and the dropped records the limiter admits, the k-th answer going to the k-th dropped record |
| Filters.OnlyExcKeep | src/logging_plugins/__init__.py:153-157 | keeps a record iff it carries exception info |
| Filters.OnlyExcKeepsSkipped | src/logging_plugins/__init__.py:153-157 | every record `SkipException` drops passes `OnlyExcFilter` |
| Filters.NewLevelRange | src/logging_plugins/__init__.py:161-163 | both bounds go through `parse_level`, and a bad minimum is reported first |
| Filters.LevelRangeKeep | src/logging_plugins/__init__.py:165-170 | keeps a record iff min <= levelno <= max |
| Filters.LevelRangesCompose | src/logging_plugins/__init__.py:165-170 | two range filters in a chain keep what the intersected range keeps |
| Filters.ExceptionNamesOfTwo | tests/test_logging_plugins.py:44 | "RuntimeError,ValueError" configures those two names |
| Filters.SkipExceptionScenario | tests/test_logging_plugins.py:24-41 | a ZeroDivisionError record is dropped and a TypeError record is kept |
| Filters.NonClassRaises | src/logging_plugins/__init__.py:58-59 | `SkipException("len")` raises on a ZeroDivisionError record, because `len` resolves to a builtin that is not a class |
| Filters.NonClassAfterMatch | src/logging_plugins/__init__.py:86-88 | with "ZeroDivisionError,len" the first class matches, so the record is dropped before `len` is tested |
| Filters.BareExcInfoRaises | src/logging_plugins/__init__.py:84-87 | a record whose exc_info is `(None, None, None)` passes `OnlyExcFilter`, but `SkipException` raises on it once its class resolves, and `SkipExceptionMsg` passes that error on |
| Filters.TestBaseDecision | tests/test_logging_plugins.py:44 | the message tests' base filter drops exactly RuntimeError and ValueError records |
| Filters.DroppedWhenContained | src/logging_plugins/__init__.py:105-113 | a configured exception whose text contains the plain pattern is dropped |
| Filters.SkipExceptionMsgDropsMatching | tests/test_logging_plugins.py:48-74 | "Hello foobar" and "foobar is great" are dropped |
| Filters.SkipExceptionMsgKeepsUnmatched | tests/test_logging_plugins.py:55-67 | RuntimeError("Hello") and a ZeroDivisionError are kept |
| Filters.UnmatchedMessageBypassesLimiter | tests/test_logging_plugins.py:76-88 | "foobar 10 error" escapes the pattern, so it is kept without asking the limiter |
| Counter.FallbackLabel | src/logging_plugins/__init__.py:181-182 | an unnamed level's label is a well-formed label made of LEVEL and a number in `%d`'s canonical form (no leading zero, '-' only before a non-zero magnitude) that `int()` reads back as the level |
| Counter.FallbackLabelUnique | src/logging_plugins/__init__.py:182 | that contract determines the label: any string of that shape for the level is the label itself, so "LEVEL05" is never level 5's label |
| Counter.Label | src/logging_plugins/__init__.py:180-184 | the label is EXCEPTION for an ERROR record with exception info, the `LEVELNO_TO_STR` name for other named levels, and `LEVEL<n>` otherwise |
| Counter.NamedLabels | src/logging_plugins/__init__.py:14-21 | every level name is a well-formed label, and only level 40 is named ERROR |
| Counter.LabelSeparatesLevels | src/logging_plugins/__init__.py:180-184 | records of different levels never share a label |
| Counter.Emit | src/logging_plugins/__init__.py:179-186 | the record's label gains one count and the new time; every other label keeps its count and time; the handler's invariant is kept |
| Counter.EmitTotal | src/logging_plugins/__init__.py:185 | each emit adds exactly one to the total count |
| Counter.EmitAllTotal | src/logging_plugins/__init__.py:179-186 | after a stream of emits the total is the number of records, and the invariant holds |
| Counter.EmitAll | src/logging_plugins/__init__.py:179-186 | after a stream of emits, the last record's label is stamped with the last time |
| Counter.EmitAllCounts | src/logging_plugins/__init__.py:179-186 | after a stream of emits each label's count grows by the number of records that carry it, and a label is counted iff it was before or some record carried it |
| Counter.RowShape | src/logging_plugins/__init__.py:195 | a dump line holds no line boundary and its three fields hold no space |
| Counter.DumpText | src/logging_plugins/__init__.py:191-196 | the dump is empty iff nothing was counted, and otherwise ends with a newline |
| Counter.DumpTextLines | src/logging_plugins/__init__.py:191-196 | the dump is one line per counted label in ascending order; each line splits into label, count and time; no line holds a brace |
| Counter.DumpTextNoBrace | src/logging_plugins/cli.py:53 | a text dump never holds a brace, so the reader takes the text path |
| Counter.DumpColumns | src/logging_plugins/__init__.py:191-196 | line i of the dump starts with the i-th label in ascending order and that label's count |
| Counter.TestLabels | tests/test_logging_plugins.py:135-144 | the counting test's records are labelled DEBUG, INFO, ERROR and EXCEPTION |
| Counter.CountScenario | tests/test_logging_plugins.py:132-147 | the counting test ends with DEBUG 1, INFO 2, ERROR 3, EXCEPTION 1 and no other label |
| Counter.CountScenarioOrder | tests/test_logging_plugins.py:157 | those labels sort as DEBUG, ERROR, EXCEPTION, INFO |
| Counter.CountScenarioDump | tests/test_logging_plugins.py:153-158 | the counting test's dump has four lines with labels DEBUG, ERROR, EXCEPTION, INFO and counts 1, 3, 1, 2 |
| DumpReader.ParseFields | src/logging_plugins/cli.py:58-60 | a row parses iff it has three fields and the count and time parse; the count is checked before the time; later fields are ignored |
| DumpReader.ParseRow | src/logging_plugins/cli.py:58-60 | a line parses iff it splits into at least three fields whose second is an integer and whose third is a number; a line without a space is rejected; a parsed row is named by the text before the first space, its count is the field after it, and its time is the third field |
| DumpReader.ParseRows | src/logging_plugins/cli.py:56-60 | the text dump parses iff every line parses |
| DumpReader.ParseText | src/logging_plugins/cli.py:56-60 | the text parses iff every line does; the tables are the rows stored in order, and both hold exactly the labels the rows name |
| DumpReader.ParseRowsPutAll | src/logging_plugins/cli.py:58-60 | reading lines that all parse stores their rows one after another |
| DumpReader.PutAllKeys | src/logging_plugins/cli.py:58-60 | storing rows adds exactly their labels to both tables |
| DumpReader.PutAllLastWins | src/logging_plugins/cli.py:58-60 | a label's count and time come from the last row that names it |
| DumpReader.ParseDumpFile | src/logging_plugins/cli.py:53-60 | a text with a brace goes to the JSON decoder, any other text to the text reader |
| DumpReader.ParseRowOfRow | src/logging_plugins/cli.py:58-60 | a dump line reads back as its label, count and time in seconds |
| DumpReader.ParseRowsOfRows | src/logging_plugins/cli.py:56-60 | reading dump lines lays each label's values over the tables read so far |
| DumpReader.TextRoundTrip | src/logging_plugins/cli.py:55-60 | reading a text dump recovers every label's count and last-record time in seconds, and nothing else |
| DumpReader.DumpRoundTrip | src/logging_plugins/cli.py:53-60 | the same holds whatever the JSON decoder does, because a text dump never reaches it |
| Rules.ParseTokens | src/logging_plugins/cli.py:17-32 | succeeds iff there are four tokens with a known variable and comparison (any case) and a numeric threshold; the label is upper-cased; a bad comparison is reported only after a good variable |
| Rules.TokensOfJoin | src/logging_plugins/cli.py:18 | a rule written as space-free tokens is split back into them |
| Rules.ParseRuleOfTokens | src/logging_plugins/cli.py:17-32 | a rule written as four tokens parses to those tokens' meaning, with the label upper-cased |
| Rules.ParseRenderedRule | src/logging_plugins/cli.py:17-32 | a rule with a whole-number threshold, rendered and parsed back, is the same rule |
| Rules.ParseRuleIgnoresCase | src/logging_plugins/cli.py:19-25 | label, variable and comparison may be written in any case |
| Rules.ParseRuleIgnoresTail | src/logging_plugins/cli.py:18-32 | tokens after the fourth do not change a rule |
| Rules.ParseRule | src/logging_plugins/cli.py:17-32 | a rule parses iff it has four space-separated tokens with a known variable and comparison (any case) and a numeric fourth token; the label is the first token upper-cased; the variable and comparison are the second and third tokens lower-cased; a rule without a space is missing its second token |
| Rules.Observed | src/logging_plugins/cli.py:68-72 | a named label reads its entry or 0; ANY count is the sum; ANY last_record is the max, and an error on an empty table |
| Rules.Holds | src/logging_plugins/cli.py:65-73 | a rule fails with an error iff its value cannot be read; lt holds iff the value is below the threshold and gt iff above it, the last_record threshold being shifted by now |
| Rules.EqualityFailsBoth | src/logging_plugins/cli.py:73 | a value equal to the threshold makes both lt and gt fail |
| Rules.OppositeComparisons | src/logging_plugins/cli.py:73 | away from the threshold exactly one of lt and gt holds |
| Rules.Judge | src/logging_plugins/cli.py:63-73 | a parse error is the rule's verdict; otherwise the verdict is the parsed rule's |
| Rules.Scan | src/logging_plugins/cli.py:62-79 | 0 iff every verdict holds; otherwise 3 + k for the first failing rule k, or the first error |
| Rules.EvalRules | src/logging_plugins/cli.py:62-79 | each rule is judged at its own clock reading; 0 iff every rule holds; 3 + k when rule k is the first to fail and all earlier rules hold; an error only from the first rule that does not hold |
| Rules.ScanFirstFalse | src/logging_plugins/cli.py:74-77 | a run of holding verdicts followed by a failing one decides the scan, whatever comes after |
| Rules.EvalRulesFirstFailure | src/logging_plugins/cli.py:74-77 | the status is 3 + k when rule k is the first not to hold, whatever the later rules say |
| Rules.RecentRecord | src/logging_plugins/cli.py:65-73 | "label last_record gt -s" holds iff the label's last record is less than s seconds old |
| Rules.AnyRecentRecord | src/logging_plugins/cli.py:65-73 | "any last_record gt -s" holds iff some label logged less than s seconds ago; with nothing logged it is an error |
| Rules.AnyCountBound | src/logging_plugins/cli.py:68-70 | with non-negative counts, ANY count is at least each label's count |
| Rules.InfoCountGtTwo | tests/test_cli.py:35 | "info count gt 2" parses as INFO, count, gt, 2 |
| Rules.AnyCountLtOne | tests/test_cli.py:40 | "any count lt 1" parses as ANY, count, lt, 1 |
| Rules.InfoLastRecordGtMinusTwo | tests/test_cli.py:45 | "info last_record gt -2" parses as INFO, last_record, gt, -2 |
| Rules.AnyLastRecordGtMinusOneAndAHalf | tests/test_cli.py:48 | "any last_record gt -1.5" parses as ANY, last_record, gt, -1.5 |
| Check.MTime | src/logging_plugins/cli.py:9-14 | a failed stat reads as time 0; otherwise the stat's time |
| Check.Poll | src/logging_plugins/cli.py:40-44 | polling stops at the first time later than the initial one, or after ten attempts; every earlier attempt saw no change |
| Check.PollSeesUpdate | src/logging_plugins/cli.py:40-49 | the file counts as updated iff one of the ten attempts saw a later time |
| Check.CheckLogDump | src/logging_plugins/cli.py:35-79 | a bad pid, then an unknown signal, then an undelivered signal are errors in that order; status 2 iff the process was signalled and no attempt saw a change; once it responds, a dump or rule error is the error, and any other status is the rules' verdict on the dump read |
| Check.RespondingCheck | src/logging_plugins/cli.py:51-79 | once the process responds, the status is the rules' verdict on the dump |
| Check.NeverWritten | tests/test_cli.py:30-32 | a file that never exists gives status 2, whatever the rules |
| Check.NoRulesPass | tests/test_cli.py:26-28 | with no rules a responding process gives status 0 |
| Check.FewInfoRecords | tests/test_cli.py:35-36 | "info count gt 2" fails as rule 0 (status 3) with at most two INFO records |
| Check.FirstRuleFails | src/logging_plugins/cli.py:74-77 | a failing first rule gives status 3 |
| Check.SecondRuleFails | src/logging_plugins/cli.py:74-77 | a holding first rule and a failing second rule give status 4 |
| Check.ThreeInfoRecords | tests/test_cli.py:37-41 | with three INFO records "info count gt 2" holds and "any count lt 1" fails as rule 1 (status 4) |
| Check.RecentInfoRecord | tests/test_cli.py:44-46 | "info last_record gt -2" holds (status 0) while the INFO record is under two seconds old |
| Check.ClockAdvancesBetweenRules | src/logging_plugins/cli.py:62-77 | the clock is read per rule: the same last_record rule twice gives status 4 when the record goes stale between the two readings |
| Check.StaleRecords | tests/test_cli.py:47-49 | "any last_record gt -1.5" fails (status 3) once every record is at least 1.5 seconds old |
| Check.TextDumpThreeInfo | src/logging_plugins/cli.py:35-79 | end to end: a handler that counted three INFO records, dumped as text, gets status 4 for the two rules |

## Left out

- The `ratelimit` library: the limiter is the parameter `admit: S -> (bool, S)`, with no window semantics assumed.
- Class resolution through `import_class`, `builtins` and `importlib` is the `ClassTable` parameter, which also says whether a resolved object is a class. Under Python 3, `__import__` of a dotted module returns the top-level package, so a name like `a.b.C` is looked up on `a`; that lookup is not modelled.
- The list or tuple argument of `SkipException.__init__` is not modelled; only a string argument is. (`"," in list` tests list membership, so the list path wraps the list in another list.)
- Regular expressions are the `reMatch` parameter; `re.compile` errors are not modelled.
- JSON: `dump_json` and `json.loads` are not modelled; the decoder is a parameter that returns both tables or an error. Python raises `KeyError` only when a rule reads a table the document lacks (cli.py:69 and 72); that lazy failure is not modelled.
- Numbers.ParseDecimal: covers optional sign, digits and one decimal point, computed exactly. It omits Python `float()`'s exponents, `inf`/`nan`, surrounding whitespace, underscores, non-ASCII decimal digits and binary rounding.
- Numbers.ParseInt: covers optional sign and ASCII digits. It omits `int()`'s surrounding whitespace, underscores and non-ASCII decimal digits (`int("٣") == 3` in Python).
- Strings.Upper: ASCII letters only; Python's full Unicode case mapping is not modelled.
- Strings.Lower: ASCII letters only, as for `Upper`; Python's full Unicode case mapping is not modelled. The words a lower-cased token is compared with ("count", "last_record", "lt", "gt") are ASCII, and the error payloads that carry a lower-cased token keep non-ASCII letters as they were.
- Time: the handler's clock is whole milliseconds, so `time.time()`'s sub-millisecond part and the float rounding of `%.3f` are not modelled. The rules add the threshold to the clock reading exactly; the clock is a function from the rule's index to its reading.
- Signals: the handler's `signal.signal` registration and `handle_signal`, which opens the file, writes the dump and closes it, are not modelled. The signal module's names are a table.
- `os.kill`, `os.stat` and `time.sleep` are not modelled. Whether the signal is delivered is a boolean, and each attempt's stat result is a parameter.
- Reading the dump file is not modelled: the file's text is a parameter, so a read error is not represented.
- The `__main__` argument dispatch of cli.py and its exit codes 1 are not modelled.
- Printing to stderr is not modelled. Error payloads are descriptive rather than the source's messages; the comparison message at cli.py:28 prints the variable token where the comparison token was meant.
- `StoreRecordsHandler` is not modelled; it is a test helper that appends every record to a list.
- The tests' JSON assertion (tests/test_logging_plugins.py:152) is not modelled; it reads a "counts" key that `dump_json` does not write.
- Locking and concurrency are not modelled: the handler's `emit` is modelled as one atomic step.
- `SkipExceptionMsg` with `regex=True` compiles the patterns up front; the model applies `reMatch` to the pattern text instead.
- Counter.CountScenarioDump: states the first two fields of each line (label and count), as the test checks them; the time field is covered by DumpReader.ParseRowOfRow.
