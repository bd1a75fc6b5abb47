# Reforge Python SDK core, modelled in Dafny

This project models three self-contained pieces of the Reforge Python SDK and proves what
their code promises:

- **Internal logging** (`sdk_reforge/_internal_logging.py`):
  - the tables between Python logging levels and the Prefab `LogLevel` enum;
  - `iterate_dotted_string`, which walks a dotted logger name from the full name down to its
    first segment;
  - the per-thread reentrancy flag;
  - `InternalLogger`. Its constructor registers the logger in the logging manager's
    `loggerDict` and runs the parent fix-up loop. That loop creates or extends placeholders
    and picks the nearest registered ancestor as the parent. Its `_log` tags every record's
    `extra` with `prefab_internal = True`, and emits nothing while the reentrancy flag is set.
- **SSE silence watchdog** (`sdk_reforge/_sse_watchdog.py`):
  - the response wrapper that fires a callback for every chunk it passes through;
  - the watchdog that, after more than `max_silence` seconds without data, polls for fresh
    configuration and closes the SSE client so that it reconnects.
- **Version script** (`update_version.py`):
  - the semantic-version validator;
  - the multiline `version = "..."` rewrite of `pyproject.toml`;
  - the VERSION file's write/read round trip;
  - the command's strip, validate, write flow.

Files:

- `wrappers.dfy`: `Option`.
- `strings.dfy`: Python's `str.split` and `str.join` on a one-character separator, with
  their round trips. The logger-name walk and the line-wise rewrite both use them.
- `internal_logging.dfy`: the logging tables, the dotted-name walk, `ReentrancyCheck`,
  `LoggerManager` and `InternalLogger`.
- `sse_watchdog.dfy`: `WatchdogResponseWrapper` and `Watchdog`.
- `update_version.dfy`: the validator, `str.strip`, the rewrite, and a `Repository` class
  holding the two files.

How the model stands in for the program:

- Objects whose fields the Python code updates are classes. The code that loops is a
  method with a loop, proved against a recursive specification function:
  - the constructor's parent loop is proved against `Walk`;
  - the wrapper's `for` loop is proved against `YieldedChunks` and `CallbackCount`;
  - the watchdog loop is proved against `ActivityAfter`, `RecoveryIndices` and `ExitIndex`.
- Time is an integer clock value passed in by the caller.
- The collaborators appear only through how each call ended:
  - the poll function;
  - the SSE client lookup and the client's `close`;
  - the config client's `is_shutting_down`;
  - the stop event.
- Files are `Option<string>` fields, where `None` means the file is missing. The exit
  status is part of the result.

## Model

| member | source | states |
|---|---|---|
| Strings.SplitCount | sdk_reforge/_internal_logging.py:40 | `split` on one character yields one more part than the string has separators |
| Strings.Split | sdk_reforge/_internal_logging.py:40 | `split` on one character never returns an empty list, and no part contains the separator |
| Strings.JoinSplit | sdk_reforge/_internal_logging.py:40-42 | joining the parts of a split with the same separator gives the string back |
| Strings.SplitAppend | sdk_reforge/_internal_logging.py:40 | splitting `x + sep + y` gives the parts of `x` followed by the parts of `y` |
| Strings.SplitJoin | update_version.py:39-44 | splitting the join of separator-free parts gives exactly those parts back (lines of rewritten content) |
| Strings.JoinPrefix | sdk_reforge/_internal_logging.py:42 | the join of all parts is the join of the first i parts, the separator, and the join of the rest |
| InternalLogging.NameTable | sdk_reforge/_internal_logging.py:11-18 | exactly the six lower-case names are known; "warn" and "warning" both give WARN, "critical" gives FATAL, no name gives TRACE |
| InternalLogging.PythonToPrefabLevels | sdk_reforge/_internal_logging.py:20-27 | exactly the six Python levels are known; NOTSET and DEBUG both give DEBUG, WARN and WARNING give WARN, CRITICAL gives FATAL, none gives TRACE |
| InternalLogging.PrefabToPythonLevels | sdk_reforge/_internal_logging.py:29-36 | the Prefab-to-Python table covers all six levels; TRACE and DEBUG go to DEBUG and each other level to its Python counterpart |
| InternalLogging.NumericRoundTrips | sdk_reforge/_internal_logging.py:20-36 | Prefab to Python to Prefab is the identity except that TRACE comes back as DEBUG; Python to Prefab to Python is the identity except that NOTSET comes back as DEBUG; NOTSET itself reads as DEBUG |
| InternalLogging.IterateDottedString | sdk_reforge/_internal_logging.py:39-42 | one item per dot-separated segment; the first item is the name itself; the last is the first segment, a dotted prefix without a dot |
| InternalLogging.AncestorShape | sdk_reforge/_internal_logging.py:39-42 | every item is a dotted prefix of the name (followed by a dot or the end), and each item is strictly shorter than the one before |
| InternalLogging.AncestorsComplete | sdk_reforge/_internal_logging.py:39-42 | every dotted prefix of the name appears among the items |
| InternalLogging.AncestorsExactly | sdk_reforge/_internal_logging.py:39-42 | a string is an item if and only if it is a dotted prefix of the name |
| InternalLogging.ReentrancyCheck.constructor | sdk_reforge/_internal_logging.py:45-55 | a thread starts without the attribute, so `is_set` is False |
| InternalLogging.ReentrancyCheck.Set | sdk_reforge/_internal_logging.py:48-55 | after `set` the attribute is True and `is_set` holds |
| InternalLogging.ReentrancyCheck.IsSet | sdk_reforge/_internal_logging.py:52-55 | `is_set` holds if and only if the attribute is present and True; an absent attribute reads as False |
| InternalLogging.ReentrancyCheck.Clear | sdk_reforge/_internal_logging.py:52-64 | after `clear` the attribute is absent and `is_set` is False, whether or not it was present before (the AttributeError is swallowed) |
| InternalLogging.RFindDot | sdk_reforge/_internal_logging.py:78-91 | `rfind(".", 0, end)`: the largest index below `end` holding a dot, or -1 when there is none |
| InternalLogging.Walk | sdk_reforge/_internal_logging.py:78-94 | the fix-up walk never removes a key, and a parent it picks is a logger already registered in the dictionary |
| InternalLogging.Visits | sdk_reforge/_internal_logging.py:78-91 | the indices the loop visits are dots strictly inside the name, strictly decreasing, and none is index 0 |
| InternalLogging.WalkVisits | sdk_reforge/_internal_logging.py:80-91 | the loop's walk over `i` equals the walk along the list of visited dot indices |
| InternalLogging.StopAtFirstLogger | sdk_reforge/_internal_logging.py:80-91 | the walk stops at the first visited prefix registered as a logger; no prefix before it is one |
| InternalLogging.WalkParent | sdk_reforge/_internal_logging.py:80-94 | the parent is the logger at the first visited prefix registered as a logger, and the root when no visited prefix is one |
| InternalLogging.WalkKeys | sdk_reforge/_internal_logging.py:80-91 | the walk adds exactly the prefixes visited before the stop to the dictionary's keys |
| InternalLogging.WalkEntries | sdk_reforge/_internal_logging.py:80-91 | each prefix visited before the stop becomes a placeholder holding its old loggers plus the new one; every other entry is unchanged |
| InternalLogging.VisitsAreAncestors | sdk_reforge/_internal_logging.py:76-91 | every visited prefix is a proper dotted ancestor of the name, one of the items of `iterate_dotted_string` |
| InternalLogging.VisitsComplete | sdk_reforge/_internal_logging.py:78-91 | for a name without adjacent dots, the walk from a dot visits every dot between index 1 and that dot |
| InternalLogging.VisitsExactly | sdk_reforge/_internal_logging.py:78-91 | for a name without adjacent dots, the walk from the last dot visits exactly the dots that end a proper ancestor (every dot but one at index 0) |
| InternalLogging.NearestLoggerRoot | sdk_reforge/_internal_logging.py:78-94 | for a name without adjacent dots, the parent is the root if and only if no proper ancestor is registered as a logger |
| InternalLogging.NearestLoggerParent | sdk_reforge/_internal_logging.py:78-94 | for a name without adjacent dots, the parent is the logger registered at the longest proper ancestor that holds one |
| InternalLogging.NearestLoggerPlaceholders | sdk_reforge/_internal_logging.py:78-91 | for a name without adjacent dots, every proper ancestor longer than every registered logger ancestor becomes a placeholder holding its old loggers and the new one |
| InternalLogging.InternalLogger.constructor | sdk_reforge/_internal_logging.py:68-94 | the name maps to the new logger. The keys are the old keys, the name, and the prefixes visited before the first registered ancestor. The parent is that ancestor, or the root. Dictionary and parent are those of the specification walk. |
| InternalLogging.InternalLogger.Log | sdk_reforge/_internal_logging.py:110-126 | a record is emitted if and only if the reentrancy flag is not set. It carries the logger's name, the level and the message. Its extra keys are the caller's keys plus `prefab_internal`, which is True. The caller's other values are kept. |
| InternalLogging.AdjacentDotSkipped | sdk_reforge/_internal_logging.py:91 | for "a..b" the second `rfind` starts before the character preceding the dot, so the walk visits "a." only, although "a" is a dotted ancestor |
| SseWatchdog.WatchdogResponseWrapper.constructor | sdk_reforge/_sse_watchdog.py:23-25 | the wrapper holds the given response |
| SseWatchdog.WatchdogResponseWrapper.Iterate | sdk_reforge/_sse_watchdog.py:27-30 | the yielded chunks are exactly the response's chunks, unchanged and in order; the callback fires once per chunk, immediately before that chunk is yielded |
| SseWatchdog.WatchdogResponseWrapper.Close | sdk_reforge/_sse_watchdog.py:32-33 | closing the wrapper closes the wrapped response exactly once |
| SseWatchdog.Watchdog.constructor | sdk_reforge/_sse_watchdog.py:47-69 | the interval and the silence limit are as given (60 and 120 by default), and the last activity is the current clock |
| SseWatchdog.Watchdog.Touch | sdk_reforge/_sse_watchdog.py:73-75 | the last activity becomes the current clock |
| SseWatchdog.Watchdog.TriggerRecovery | sdk_reforge/_sse_watchdog.py:98-122 | the poll is called exactly once, then the client is requested. The client is closed if and only if there is one. No failure stops the later steps or escapes. The last activity becomes the current clock. |
| SseWatchdog.Watchdog.Check | sdk_reforge/_sse_watchdog.py:90-96 | a pass exits if and only if the stop event is set or the client is shutting down. Otherwise it recovers if and only if the silence strictly exceeds the limit. Only a recovery moves the last activity. |
| SseWatchdog.Watchdog.Run | sdk_reforge/_sse_watchdog.py:73-96 | each wake-up's touch (data that arrived since the previous pass) moves the last activity before the pass checks it. The loop handles the wake-ups before the first exiting one. Recovery fires at the specified indices, and the last activity is that of the specification. |
| SseWatchdog.ExitIndex | sdk_reforge/_sse_watchdog.py:90-92 | the first wake-up that finds the stop event set or the client shutting down; none before it does |
| SseWatchdog.RecoveryIndicesExactly | sdk_reforge/_sse_watchdog.py:90-96 | a handled wake-up is a recovery if and only if its silence since the last activity exceeds the limit |
| SseWatchdog.ActivityAfterRecovery | sdk_reforge/_sse_watchdog.py:73-122 | with a clock that never goes backwards, the last activity never falls back before the clock reading of a recovery |
| SseWatchdog.RecoveriesSpaced | sdk_reforge/_sse_watchdog.py:73-122 | with a clock that never goes backwards, any two recoveries are more than `max_silence` apart on the clock, whatever data arrives between them |
| SseWatchdog.NoImmediateRetrigger | sdk_reforge/_sse_watchdog.py:94-122 | with a clock that never goes backwards and a non-negative limit, a wake-up right after a recovery and at the same clock reading does not recover again |
| SseWatchdog.TouchedRegularlyNeverRecovers | sdk_reforge/_sse_watchdog.py:73-96 | when data arrives within `max_silence` before every pass, recovery never fires |
| SseWatchdog.QuietStart | sdk_reforge/_sse_watchdog.py:88-96 | without data, and while each pass is within the limit of the start, the timer stays at its start and nothing recovers |
| SseWatchdog.SilenceFires | sdk_reforge/_sse_watchdog.py:88-96 | without data and while earlier passes stayed within the limit, a pass recovers if and only if it is more than `max_silence` after the start of the timer |
| UpdateVersion.LeadingDigits | update_version.py:57 | the length of the longest run of ASCII digits at the start of the string |
| UpdateVersion.PatchOf | update_version.py:57 | a digit run followed by the rest scans as the patch field if and only if the rest is empty or `-` and at least one suffix character |
| UpdateVersion.MinorOf | update_version.py:57 | a digit run, a dot and the rest scan as the minor field if and only if the rest scans as the patch field |
| UpdateVersion.MajorOf | update_version.py:57 | a digit run, a dot and the rest scan as a whole version if and only if the rest scans as the minor field |
| UpdateVersion.CoreVersionIsSemVer | update_version.py:55-58 | the scanner accepts a string if and only if it is MAJOR.MINOR.PATCH (three non-empty digit runs) optionally followed by `-` and a non-empty run of letters, digits, `-` and `.` |
| UpdateVersion.Validate | update_version.py:55-58 | an accepted string starts with a digit and holds only letters, digits, `-` and `.`, apart from one final newline |
| UpdateVersion.ValidateMeaning | update_version.py:55-58 | `validate_version` accepts exactly such strings, and such strings followed by one newline |
| UpdateVersion.ValidateAllowsFinalNewline | update_version.py:57-58 | because `$` matches before a final newline, a valid version followed by "\n" is accepted |
| UpdateVersion.ValidateAcceptsRelease | update_version.py:55-58 | "0.13.0" is accepted |
| UpdateVersion.ValidateAcceptsPreRelease | update_version.py:55-58 | "1.2.3-rc.1" is accepted |
| UpdateVersion.ValidateAcceptsFinalNewline | update_version.py:55-58 | "1.2.3\n" is accepted |
| UpdateVersion.ValidateRejectsShape | update_version.py:55-58 | "1.2" and "v1.2.3" are rejected |
| UpdateVersion.ValidateRejectsMetadata | update_version.py:55-58 | "1.2.3+meta" is rejected |
| UpdateVersion.ValidateRejectsEmptyPreRelease | update_version.py:55-58 | "1.2.3-" is rejected |
| UpdateVersion.CoreVersionChars | update_version.py:57 | every character of an accepted version (without the newline) is a letter, digit, `-` or `.`, and the first is a digit |
| UpdateVersion.ValidatedHasNoBackslash | update_version.py:39-58 | an accepted version holds no backslash, so the substitution template inserts it literally |
| UpdateVersion.LStrip | update_version.py:78 | drops exactly the leading whitespace: a suffix whose dropped part is all whitespace and which does not start with whitespace |
| UpdateVersion.RStrip | update_version.py:78 | drops exactly the trailing whitespace, symmetrically |
| UpdateVersion.Strip | update_version.py:78 | the result neither starts nor ends with whitespace |
| UpdateVersion.StripShape | update_version.py:78 | the result is a slice of the string, and everything around that slice is whitespace |
| UpdateVersion.StripPadding | update_version.py:78 | stripping whitespace padding around a core without whitespace at its ends gives exactly that core |
| UpdateVersion.StripTrimmed | update_version.py:78 | a string without whitespace at its ends strips to itself |
| UpdateVersion.StripIdempotent | update_version.py:78 | stripping twice is stripping once |
| UpdateVersion.StripTrailingWhitespace | update_version.py:17-29 | whitespace appended to a string does not change what it strips to |
| UpdateVersion.CurrentVersion | update_version.py:17-23 | "unknown" when the VERSION file is missing. Otherwise the result has no whitespace at either end, and the file's text is the result with whitespace padding on both sides. |
| UpdateVersion.VersionFileText | update_version.py:26-29 | the text written to VERSION strips to the same string as the version itself: the added newline never reaches a reader |
| UpdateVersion.WriteReadRoundTrip | update_version.py:17-29 | writing a valid version (without a final newline) and reading it back gives the same version |
| UpdateVersion.StrippedValidIsCore | update_version.py:78-80 | a stripped string that validates does not rely on the final-newline allowance |
| UpdateVersion.TrailingNewlineRoundTrip | update_version.py:17-58 | a valid version followed by "\n" validates, but reads back without the newline |
| UpdateVersion.NewlineArgumentReadsBack | update_version.py:17-29 | a trimmed version followed by a newline is written with two newlines and read back without them |
| UpdateVersion.AcceptedArgument | update_version.py:78-89 | the version the command writes holds no backslash and reads back unchanged |
| UpdateVersion.PaddedVersionValidates | update_version.py:78-80 | whitespace around a valid version never makes the command reject it: stripping recovers it and it validates |
| UpdateVersion.IsVersionLine | update_version.py:39-44 | a line matches `^version = ".*"$` in full if and only if it is `version = "`, any text, and a closing quote |
| UpdateVersion.RewriteLine | update_version.py:39-44 | a line is a version line after the rewrite if and only if it was one before, and it is unchanged if and only if it is no version line or already reads `version = "<v>"` |
| UpdateVersion.Rewrite | update_version.py:39-44 | for a version without a newline, splitting the result into lines gives the content's lines, each rewritten |
| UpdateVersion.VersionLineIsVersionLine | update_version.py:39-44 | the replacement line `version = "<v>"` is itself a line the pattern matches |
| UpdateVersion.RewriteByLines | update_version.py:39-44 | the rewritten content has the same number of lines; every line that is exactly `version = "..."` becomes `version = "<v>"`, and every other line is unchanged |
| UpdateVersion.RewriteIdempotent | update_version.py:39-48 | rewriting twice with the same version gives the content of one rewrite, so a second update reports no change |
| UpdateVersion.RewriteUnchangedIff | update_version.py:39-48 | the rewrite changes nothing if and only if every version line already reads `version = "<v>"` |
| UpdateVersion.Repository.UpdateVersionFile | update_version.py:26-29 | VERSION holds the version and a newline; pyproject.toml is untouched |
| UpdateVersion.Repository.UpdatePyprojectToml | update_version.py:33-52 | a missing file raises. Unchanged content returns False and writes nothing. Otherwise it writes the rewritten content and returns True. VERSION is untouched. |
| UpdateVersion.Repository.RunMain | update_version.py:61-98 | `--current` shows the current version and writes nothing. A missing, empty or invalid version exits with 1 before any write. Otherwise VERSION is written first and reads back as the stripped version, then pyproject.toml is rewritten. A missing pyproject.toml exits with 1 after VERSION was written. |
| UpdateVersion.ProceedsToWrite | update_version.py:73-83 | the command reaches the writes only with a present, non-empty argument that validates once stripped; that version holds no backslash and survives the round trip |

## Left out

- Threads and timing: `start`, `stop` and the daemon thread are not modelled, nor is `join(timeout=5)` or how long `Event.wait(check_interval)` blocks. The loop is modelled over a finite list of wake-ups. Each carries the latest `touch` since the previous pass, the stop flag, the shutdown flag and the clock reading.
- SseWatchdog.Watchdog.Run: the reader thread's touches between two passes are reduced to the latest one, because each touch overwrites the one before. A touch that races with the pass itself, between its reading of the clock and of `last_activity`, is not modelled.
- SseWatchdog.RecoveriesSpaced: holds for a clock that never goes backwards (`ClockMonotone`). `time.time()` can step back when the system clock is set, and then the spacing is not guaranteed; the same applies to SseWatchdog.ActivityAfterRecovery and SseWatchdog.NoImmediateRetrigger.
- Floating-point time: the clock is an integer, and `check_interval` is stored but plays no part in the decisions.
- SseWatchdog.Watchdog.Check: the clock is read once per pass. The source reads it once for the silence and again when recovery resets the timer; the model uses the first reading for both.
- Log output: the watchdog's and the script's messages and `print` calls, and the `{silence:.0f}` formatting, are not modelled.
- The standard logging framework:
  - handlers and the root logger object (the parent is `Root`) are not modelled;
  - a `PlaceHolder`'s internal ordered map is modelled as a set of loggers;
  - the manager's lock is not modelled;
  - `logging.Logger.__init__` is reduced to the name and level fields.
- Thread-locality of `ReentrancyCheck` is reduced to one flag per thread object: the caller passes the current thread's flag.
- InternalLogging.InternalLogger.Log: `args`, `exc_info`, `stack_info` and `stacklevel` are passed through unchanged and are not modelled. Extra values are reduced to booleans, strings and integers.
- Prefab enum numbers: the numeric values of `Prefab.LogLevel` come from a generated protobuf module that is not part of this model; the levels are a datatype.
- Script I/O: `Path`, `read_text`/`write_text`, `argparse` and `sys.exit` are not modelled. Files are optional strings, and the only I/O failure modelled is a missing file. A failing write to VERSION is not modelled.
- UpdateVersion.IsDigit: Python's `\d` also matches non-ASCII decimal digits; the model accepts ASCII digits only.
- UpdateVersion.Repository.UpdatePyprojectToml: requires a version without a backslash, because `re.sub` would interpret backslash escapes in the replacement template and the model inserts the version literally. `main` only passes validated versions, which hold none.
- UpdateVersion.Rewrite: same restriction, for the same reason.
- InternalLogging.NearestLoggerParent: stated for names without two adjacent dots, as are InternalLogging.NearestLoggerRoot, InternalLogging.NearestLoggerPlaceholders and InternalLogging.VisitsComplete. For a name such as "a..b" the second `rfind` starts before the character preceding the dot, so the ancestor "a" is skipped (InternalLogging.AdjacentDotSkipped). A dot at index 0 never ends an ancestor the loop visits.
- UpdateVersion.Strip: its own contract states only that the result has no whitespace at its ends. The lemma UpdateVersion.StripShape states that only whitespace was removed, so that this existential fact is brought in only where a proof needs it.
- Strings.Join: has no contract of its own. It is specified as the inverse of `split` by Strings.JoinSplit and Strings.SplitJoin.
- Python's multiline `re.sub` is modelled as a rewrite of each line of `split("\n")`. The pattern can neither cross nor match an empty line, so it matches at most once per line.
- The rest of the SDK (options, config loading, the SSE connection manager, logger filters and processors, the config client interface beyond `is_shutting_down`) is not part of this model.
