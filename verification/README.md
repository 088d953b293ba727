# A model of the `sc.exe` wrapper's command builders and output parsers

This project models the three side-effect-free parts of a Node.js wrapper
around the Windows service-control tool `sc.exe` and the `tasklist` tool. It
states their contracts in Dafny and proves them.

- **Command builders** (`ScCommand`, from `src/sc-command.ts`).
  - The argument resolver `getArgs` turns a loosely typed call
    `(server?, positionals..., options?)` into a server, positional
    arguments and an options map.
  - `buildCommand` and `qualifyUNCPath` lay out the argument vector of one
    `sc` run.
  - `addArg`, `toYesNo`, `toSlashSeperated` and `addConfigArgs` encode
    options as `name=` / value token pairs, in a fixed table order.
  - `buildControlCommand` expands a list of services into one command per
    service.
  - The exported builders fix each sub-command's name, fixed-argument count,
    buffer size and accepted exit codes. These are `start`, `stop`, `pause`,
    `continue`, `control`, `interrogate`, `create`, `setConfig`,
    `setFailureConfig`, `query` and the other simple ones.
- **`sc` output parsers** (`ScFields` and `ScParser`, from
  `src/sc-parser.ts`).
  - Every regular expression of the source is a hand-written scanner
    (`ScFields.MatchAt`, one case per pattern). Each scanner reproduces the
    greedy, backtracking leftmost match. `.` stops at line terminators and
    `\s` crosses them.
  - `ScFields.FirstMatch` finds the leftmost match.
  - `ScFields.Capture` is `matchGroupOrDefault` without its default.
  - On top of these sit the field extractors: `getValue`,
    `getCodeNameValue`, `getFlags`, `getArrayValue`, `getNumericValue`,
    `getHexValue` and `getBooleanValue`.
  - The record parsers are `error`, `displayName`, `keyName`,
    `description`, `descriptor`, `lock`, `failureConfig`, `config` and
    `services`.
- **`tasklist` parser** (`TasklistParser`, from `src/tasklist-parser.ts`).
  - The "no tasks" sentinel gives no records.
  - Otherwise there is one record per `\n`-separated line, with quoted CSV
    fields by position.

Supporting modules:

- `JsValue` models the JavaScript values the builders receive, with
  truthiness and `String()`.
- `JsText` models the JavaScript string primitives:
  - the `\s` class and `trim`;
  - `indexOf`, and `split`/`join` with a literal separator;
  - `String(n)` for integers;
  - `parseInt`, where `None` stands for `NaN`.
- `Wrappers` provides `Option` and `Result`.

The builders never throw in the common case. Where JavaScript would throw a
`TypeError`, the model returns `Fail`. This happens for a truthy non-array
`depend` (`value.join` is not a function) and for a primitive `options.args`
passed to `push.apply`.

Two field readers do not do what the code around them shows they are for.
The model keeps both readings. `ScFields.Reading` is either `AsWritten`, the
program's behaviour, or `Intended`, the corrected one. The record parsers
`lock`, `config` and `services` take it as a parameter, so
`ScParser.Lock(s, AsWritten)` is the program's `lock`.

- `getBooleanValue` (src/sc-parser.ts:52-55) matches only the words `true`
  and `false` (line 54). It feeds the `locked` field (line 76), so it is
  meant to tell the two apart. It applies `Boolean()` to the matched word,
  which is a non-empty string either way, so `IsLocked : FALSE` reads as
  locked.
- `getNumericValue` (src/sc-parser.ts:41-46) accepts an optional `0x` in its
  pattern (line 43). Under its `hex` flag it tests `_.startsWith('0x')` before
  adding the prefix (line 44), so it means to add the prefix only when it is
  missing. The test is given no string, so it is always false, and a value
  that already carries `0x` reads as 0.

Both are recorded under "## Findings".

## Model

| member | source | states |
|---|---|---|
| ScCommand.GetArgs | src/sc-command.ts:110-122 | The last argument becomes the options exactly when it is an object. An array is not an object here. Otherwise the options are the empty map, never null. The server is recorded exactly when the remaining count equals `fixed` and the first argument is truthy. The other positionals keep their order. Their count is the input count minus the popped options minus the consumed server slot. |
| ScCommand.GetArgsOfCall | src/sc-command.ts:110-122 | A call laid out as `(server?, positionals, options?)` with one more slot than positionals resolves back to its parts. The server is kept only when truthy, so a leading `undefined` is dropped. The positionals come back in order, and the options or `{}`. |
| ScCommand.QualifyUNCPath | src/sc-command.ts:101-103 | The result is two backslashes followed by the input with all its leading backslashes removed. The character after the two backslashes is never a backslash. |
| ScCommand.QualifyUNCPathIdempotent | src/sc-command.ts:101-103 | Qualifying a qualified path changes nothing. |
| ScCommand.BuildCommandReadsBack | src/sc-command.ts:130-144 | The path is `sc`. The argument vector reads back as the server name (only when truthy, without leading backslashes), then the command name, then the given arguments. Success codes default to `[]`. |
| ScCommand.SimpleCommandOf | src/sc-command.ts:152-158 | `buildSimpleCommand` yields `[\\server] name positionals...`, followed by `String(buffer)` when a buffer is given, with no success codes. |
| ScCommand.SimpleCommandLayout | src/sc-command.ts:228-320 | Each simple builder emits its sub-command, such as `qc`, `sdshow` or `querylock`. Its fixed count is 1, 2 or 3. Its buffer is 4096, 8192, 262144 or none. |
| ScCommand.AddArgIsPair | src/sc-command.ts:92-94 | `addArg` appends exactly the two tokens `name=` and `String(value)` when the value is truthy. Otherwise it leaves the arguments unchanged. |
| ScCommand.ReadPairTokens | src/sc-command.ts:92-94 | Option tokens decode back to the `(name, value)` pairs they encode. |
| ScCommand.ConfigArgsFollowTable | src/sc-command.ts:200-212 | `addConfigArgs` fails exactly when the table encoding fails. Otherwise it appends the table's pairs. |
| ScCommand.TablePairsUnfold | src/sc-command.ts:200-212 | The table encoding emits its pairs in the order type, type (from `interact`), start, error, binpath, group, tag, depend, obj, displayname, password. The input map's key order plays no part. |
| ScCommand.ConfigTagEmitsYesNo | src/sc-command.ts:200-212 | A boolean `tag` is emitted as `tag= yes` or `tag= no`. `false` is emitted too, because `no` is truthy. |
| ScCommand.ConfigDependEncoding | src/sc-command.ts:172-174 | A `depend` list is emitted `/`-joined. An empty list emits no `depend=` pair. |
| ScCommand.ConfigCommandLayout | src/sc-command.ts:235-270 | `create` and `config` both yield `[\\server] create\|config service` followed by the table's option pairs. Each succeeds exactly when the encoding does. |
| ScCommand.FailureOptionArgsArePairs | src/sc-command.ts:274-293 | The failure options are emitted as reset, reboot, command, then one `actions=` pair, each only when truthy. |
| ScCommand.FailureConfigLayout | src/sc-command.ts:274-293 | `setFailureConfig` yields `[\\server] failure service` followed by the failure pairs. |
| ScCommand.FailureActionsReadBack | src/sc-command.ts:281-291 | Actions with numeric delays are listed as restart, run, reboot, each only for a truthy delay. Each delay reads back with `parseInt`. Splitting the `/`-joined `actions` value gives the list back. |
| ScCommand.QueryLayout | src/sc-command.ts:294-306 | With `options.name`, `queryex` gets just that name. Otherwise it gets the type, type, state and group pairs, then `bufsize= 262144`. |
| ScCommand.BuildControlCommandShape | src/sc-command.ts:181-198 | A control batch fails exactly when there is a service and the `args` option is truthy but neither a list nor an object. Otherwise it has one command per service, in order. Each command is `[\\server] command service args...`, records its service, and carries the shared success codes. |
| ScCommand.ControlBatchOfNames | src/sc-command.ts:181-198 | A list of names yields one command per name, in order. Each reads back as `(server, command, [name])`. `serial` passes through to the batch. |
| ScCommand.ControlSingleName | src/sc-command.ts:181-198 | A single service name is wrapped into a one-command batch. |
| ScCommand.ControlCodes | src/sc-command.ts:181-198 | Every command of a batch carries the batch's success codes, or `[]`. |
| ScCommand.ControlAcceptance | src/sc-command.ts:214-227 | An exit code is accepted exactly when it is 0 or 1056 for `start`, 0 or 1062 for `stop`, and 0 for `pause` and `continue`. |
| ScCommand.StartTwoServicesSerially | src/sc-command.ts:214-216 | `start(["a","b"], {serial: true})` is `start a` then `start b`, serial, each accepting 1056. |
| ScFields.ValueStart | src/sc-parser.ts:4-6 | `name\s*[=:]` at a position: the label, whitespace only, then a separator. When the label is present but no separator follows the whitespace, there is no match. |
| ScFields.FirstMatchSpec | src/sc-parser.ts:8-11 | `match` finds the leftmost position where the pattern matches, and no match precedes it. No result means no match anywhere. |
| ScFields.CaptureNone | src/sc-parser.ts:8-11 | `matchGroupOrDefault` falls back to its default exactly when the pattern matches nowhere. |
| ScFields.Capture | src/sc-parser.ts:8-11 | A captured group is trimmed. For the patterns ending in `(.*)` it is a single line. |
| ScFields.GetValueOfField | src/sc-parser.ts:13-16 | A field line `label gap [=:] value` at the first mention of its label reads back as its trimmed value. |
| ScFields.GetValueNone | src/sc-parser.ts:13-16 | `getValue` uses its default exactly when no labelled separator occurs. |
| ScFields.CodeOfField | src/sc-parser.ts:18-21 | `TYPE : 10  WIN32_OWN_PROCESS` reads back as the name `WIN32_OWN_PROCESS`. The code digits read as hexadecimal. |
| ScFields.CodeNameValueNone | src/sc-parser.ts:18-21 | `getCodeNameValue` uses its default exactly when no labelled separator occurs. |
| ScFields.AbsentValue | src/sc-parser.ts:13-26 | An unmentioned label gives no value, no code name and no flags. |
| ScFields.FlagsOfField | src/sc-parser.ts:23-26 | `STATE : ...` followed by a line `(FLAGS)` gives the trimmed text between `(` and the last `)` of that line. |
| ScFields.ArrayValue | src/sc-parser.ts:28-39 | The result is `[]` when the label is absent. Every item is non-empty and a single line. |
| ScFields.ListItemsOfText | src/sc-parser.ts:32-37 | The `exec` loop over lines `: value` yields the values in order. |
| ScFields.ArrayOfList | src/sc-parser.ts:28-39 | The `: value` lines after the first mention of a label read back as exactly their values, in order. |
| ScFields.NumberRead | src/sc-parser.ts:41-46 | The program's and the corrected reading of a numeric field agree unless the field is hex-flagged and its text already starts with `0x`. |
| ScFields.DecimalOfField | src/sc-parser.ts:41-46 | Without the hex flag, a decimal field reads as its number. |
| ScFields.HexPrefixedField | src/sc-parser.ts:41-46 | A hex-flagged field `0x<digits>` reads as the hexadecimal value in the intended reading, and as 0 as written. |
| ScFields.AbsentNumber | src/sc-parser.ts:41-46 | An unmentioned numeric field reads as 0 with default `0`, and as `NaN` with default `null`, whether hex or not. |
| ScFields.HexValueOfField | src/sc-parser.ts:48-50 | `getHexValue` of a field such as `CHECKPOINT : 0x1f` or `WAIT_HINT : 0x7d0` is the value of the base-16 digits after the prefix, letters included, because `parseInt` honours the prefix. |
| ScFields.BooleanOfField | src/sc-parser.ts:52-55 | An `IsLocked : TRUE/false` field, with the label in any case, is true in the intended reading exactly when the word is `true` in any case. As written it is always true. |
| ScFields.AbsentBoolean | src/sc-parser.ts:52-55 | A boolean field that is absent, in any case, reads as its default. |
| ScParser.Error | src/sc-parser.ts:57-61 | The error description is non-empty whenever the output is. It is either the whole output or one trimmed line. |
| ScParser.ErrorOfField | src/sc-parser.ts:57-61 | A non-empty `ERROR` field is the error. |
| ScParser.ErrorOfScReport | src/sc-parser.ts:57-61 | Without an `ERROR` field, an output starting with an `[SC]` line gives the message on the next non-blank line. |
| ScParser.ErrorFallsBack | src/sc-parser.ts:57-61 | With neither an `ERROR` field nor an `[SC]` start, the error is the output itself. |
| ScParser.ValueOrOutputOfField | src/sc-parser.ts:62-70 | `displayName`, `keyName` and `description` return the trimmed field value when it is present. |
| ScParser.ValueOrOutputFallsBack | src/sc-parser.ts:62-70 | `displayName`, `keyName` and `description` return the whole output when the label is absent. |
| ScParser.DescriptorOfText | src/sc-parser.ts:71-73 | The descriptor is the first non-blank line, trimmed. |
| ScParser.DescriptorOfBlank | src/sc-parser.ts:71-73 | A blank output has the empty descriptor. |
| ScParser.LockDefaults | src/sc-parser.ts:74-80 | Without its labels the lock status is not locked, with owner `''` and duration 0, in either reading. |
| ScParser.LockedOfField | src/sc-parser.ts:74-80 | As written, `IsLocked : TRUE` and `IsLocked : FALSE` (any case) both give `locked`. In the corrected reading `locked` holds exactly for `true` in any case. |
| ScParser.LockDurationOfField | src/sc-parser.ts:74-80 | `LockDuration : n` reads as n in either reading. |
| ScParser.FailureConfigDefaults | src/sc-parser.ts:81-88 | Without its labels the failure configuration is 0 and empty texts. |
| ScParser.ResetPeriodOfField | src/sc-parser.ts:81-88 | `RESET_PERIOD (in seconds) : n` reads as n. The parentheses in the label are literal. |
| ScParser.CodedOfField | src/sc-parser.ts:91-94 | A coded field with a decimal-digit code reads as that code in hexadecimal and its trimmed name, in either reading. |
| ScParser.CodedHexPrefixed | src/sc-parser.ts:91-94 | A code already written as `0x10` reads as 0 as written, and as its value in the corrected reading. |
| ScParser.ConfigDefaults | src/sc-parser.ts:89-110 | Without its labels, `config` is zero codes, empty texts, tag 0 and no dependencies, in either reading. |
| ScParser.ConfigCodeOfField | src/sc-parser.ts:89-102 | The type, start type and error control read back from their lines. |
| ScParser.ConfigDependenciesOfList | src/sc-parser.ts:107 | The dependencies are the values of the `: value` lines after `DEPENDENCIES`, in order. |
| ScParser.SplitBlankLines | src/sc-parser.ts:112 | The output splits into at least one block, and no block contains a blank line (`\r?\n\r?\n`). |
| ScParser.SplitJoinBlankLines | src/sc-parser.ts:112 | Blocks joined with blank lines split back into the same blocks. |
| ScParser.KeptAllOrNone | src/sc-parser.ts:113 | The filter keeps every block exactly when all blocks name a service. It keeps none exactly when none does. |
| ScParser.KeptAppend | src/sc-parser.ts:113 | The filter distributes over concatenation, so block order is kept. |
| ScParser.ServicesOfBlocks | src/sc-parser.ts:111-114 | `services` gives one record per block that names a service, in block order. When all blocks do, record k is block k's. |
| ScParser.StateOf | src/sc-parser.ts:123-129 | `running`, `paused` and `stopped` hold exactly for codes 4, 7 and 1, so at most one holds. |
| ScParser.ServiceStateOfField | src/sc-parser.ts:115-129 | `STATE : 4  RUNNING` reads as code 4 (hexadecimal), name `RUNNING`, and running. |
| ScParser.ParseService | src/sc-parser.ts:115-142 | A record never has two run states at once. A present `pid` is non-zero, a present `flags` is non-empty, and a present `accepted` is a non-empty list. |
| ScParser.ServicePidOfField | src/sc-parser.ts:136-139 | `PID : n` sets `pid` exactly when n is non-zero. |
| ScParser.ServicePidAbsent | src/sc-parser.ts:136-139 | Without `PID` there is no `pid`. |
| ScParser.ServiceAcceptedOfField | src/sc-parser.ts:135-138 | `accepted` is the flags text split at `", "`, absent when that text is empty. Joining it gives the text back. |
| ScParser.ServiceAcceptedList | src/sc-parser.ts:135-138 | Comma-free names printed as `(A, B, C)` read back as exactly those names. |
| TasklistParser.Parse | src/tasklist-parser.ts:3-15 | Output containing the sentinel gives no records. Otherwise there is one record per `\n`-separated piece, so never none. |
| TasklistParser.NoTasksAnywhere | src/tasklist-parser.ts:4 | The sentinel anywhere in the output, even after rows, gives no records. |
| TasklistParser.ParseOfLines | src/tasklist-parser.ts:5 | Lines joined with `\n` parse to one record per line, in order. |
| TasklistParser.ParseTrailingLineBreak | src/tasklist-parser.ts:5 | A final line break adds exactly one empty record and changes no other. |
| TasklistParser.StripQuotes | src/tasklist-parser.ts:6 | At most one quote is dropped at each end. Text without quotes is kept. |
| TasklistParser.StripQuotesOfQuoted | src/tasklist-parser.ts:6 | The quotes around any text are stripped, whatever it holds. |
| TasklistParser.RowFields | src/tasklist-parser.ts:6 | A printed row with whitespace around it splits back into the quote-free fields it was printed from. |
| TasklistParser.ParseLine | src/tasklist-parser.ts:7-13 | The name is the first field. The session name and memory are present exactly when the row has enough fields. PID and session are absent when their position is missing. |
| TasklistParser.RecordReadsBack | src/tasklist-parser.ts:6-13 | A row `"name","pid","session name","session","memory"` reads back as exactly that process. |
| TasklistParser.BlankLine | src/tasklist-parser.ts:6-13 | A blank line is a record with an empty name and nothing else. |
| JsText.Split | src/tasklist-parser.ts:5 | `split` yields at least one piece. No piece contains the separator, and joining the pieces gives the text back. |
| JsText.SplitJoin | src/tasklist-parser.ts:5-6 | Pieces free of the separator's first character, joined and split, come back unchanged. |
| JsText.TrimAround | src/sc-parser.ts:10 | `trim` removes exactly the surrounding whitespace. |
| JsText.ParseIntOfString | src/tasklist-parser.ts:9-11 | `parseInt(String(n))` is n for every integer. |
| JsText.ParseIntHexDigits | src/sc-parser.ts:44-45 | `parseInt("0x" + d)` reads the base-16 digits d (`0`-`9`, `a`-`f`, `A`-`F`) in base 16. |
| JsText.ParseIntDoubledHexPrefix | src/sc-parser.ts:44-45 | `parseInt("0x0x...")` is 0: the second prefix stops the digits. |

## Left out

- `src/coordinator.ts` is left out. It is asynchronous polling with delays, timeouts and promise chains: timing and concurrency, not sequential logic.
- `src/process.ts` is left out: spawning `sc.exe` and collecting its output is I/O. Only its acceptance rule (exit code 0 or a listed success code) is kept, as `ScCommand.ExitAccepted`.
- `src/sc.ts` is left out. It holds overloaded public wrappers that forward their arguments to the builders, plus global timeout settings. It has no logic of its own.
- `gulpfile.js` is left out: build tooling.
- `tasklist-command` and `common` are imported by the source but are not part of this model.
- Lodash `_.merge` in `buildControlCommand` is left out beyond the fields the batch uses. The batch carries `serial`, `waitForExit`, `timeout` and `args`. Other option keys merged into the batch are dropped.
- `buildCommand` treats a non-array `argsIn` specially (src/sc-command.ts:136-137). That branch is left out, because every caller passes an array.
- There is no general regular-expression engine or `escape-string-regexp`. Each pattern the source builds is a dedicated scanner, and labels are matched literally, which is what escaping achieves.
- JavaScript numbers are integers here: no fractions, no infinities, no 53-bit precision limit. `String()` and `parseInt` cover integers, surrounding whitespace, a sign and the `0x` prefix. `parseInt` without a prefix reads base 10, and there is no explicit radix argument.
- Arrays hold strings only, as the builders' declared types say.
- Strings are sequences of characters. UTF-16 surrogate pairs are not distinguished.
- ScFields.ArrayOfList: characterises lists laid out as `sc qc` prints them: one `: value` per line, values non-empty and trimmed, the first line right after the label. Other layouts are covered only by `ScFields.ArrayValue`'s general contract.
- ScFields.FlagsOfField: characterises the layout where the parenthesised line directly follows the labelled line. Where the backtracking `.*` would pick a later line, it is covered only by `ScFields.Flags`'s general contract.
- TasklistParser.RecordReadsBack: assumes quote-free name, session name and memory. A field holding `","` is split differently, as in the source.
- ScParser.ServicesOfBlocks: assumes blocks that end in text, not in a line break. Otherwise a separator could be read differently.

## Findings

| source | as written | input that shows it | evidently intended | confidence | as-written member | corrected member |
|---|---|---|---|---|---|---|
| src/sc-parser.ts:44 | `_.startsWith('0x')` is called without the string to test, so it is always false and `0x` is always prepended | `TYPE : 0x10` read with the hex flag becomes `0x0x10`, which `parseInt` reads as 0 | prepend `0x` only when the value lacks it, giving 16 | not executed | ScFields.NumericValueAsWritten (shown by ScFields.HexPrefixedField, ScParser.CodedHexPrefixed) | ScFields.NumericValue (ScFields.HexPrefixedField, ScParser.CodedHexPrefixed) |
| src/sc-parser.ts:52-54 | `Boolean()` of the matched word, which is a non-empty string for both `true` and `false` | `IsLocked : FALSE` gives `locked: true` | true exactly for the word `true` in any case | not executed | ScFields.BooleanValueAsWritten (shown by ScFields.BooleanOfField, ScParser.LockedOfField) | ScFields.BooleanValue (ScFields.BooleanOfField, ScParser.LockedOfField) |
