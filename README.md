# Wedeto/Log in Dafny

A model of the logging core of Wedeto/Log, a PSR-3 logger for PHP. Everything is proved, nothing is executed.

The model covers:

- **Logger registry.** There is one `Logger` per module name. Names are normalised by turning `\` into `.` and trimming dots, spaces and backslashes from both ends.
- **Logger state.** Each logger has a threshold level and a list of handlers.
- **`log`.** It refuses an unknown level and drops a record below the logger's threshold. Otherwise it stamps the context with the originating module and level (`_module`, `_level`), calls every handler in attachment order, and passes the record on to the parent logger. The parent is found by dropping the last dot-separated segment of the name, and the chain ends at the root `""`.
- **`fillPlaceholders`.** For each context key in order, every `{key}` in the message is replaced by the key's value, rescanning from the start after each replacement.
- **`AbstractWriter`.** It carries an optional formatter and a minimum level.
- **`PatternFormatter`.** It fills `%MODULE%`, `%LEVEL%`, `%MESSAGE%` and `%DATE%` into a template, using PHP's sequential, single-scan `str_replace`.
- **`MemLogger`.** It stores accepted records in memory as `sprintf("%10s: %s")` lines.

## Modules

| Module | File | Contents |
|---|---|---|
| `Wrappers` | `wrappers.dfy` | `Option`, `Result` and `Outcome` |
| `Text` | `text.dfy` | PHP string primitives: `strpos`, `str_replace` with one search string, `strtoupper`, left padding |
| `Levels` | `levels.dfy` | `$LEVEL_NAMES` and `getLevelNumeric` |
| `LogContext` | `context.dfy` | the context array as an ordered list of key/value entries, and the `_module`/`_level` stamps |
| `Placeholders` | `placeholders.dfy` | `fillPlaceholders`, as a function and as the loop that computes it |
| `PlaceholderLiterals` | `placeholder_literals.dfy` | facts about the literal strings of the test cases |
| `ModuleNames` | `module_names.dfy` | name normalisation, `explode`/`implode` on `.`, parent names, the chain of ancestors, the root test |
| `Delivery` | `delivery.dfy` | which handler calls a record produces over a snapshot of the logger tree |
| `Loggers` | `logger.dfy` | the `Logger` and `Registry` classes |
| `Formatting` | `pattern_formatter.dfy` | `PatternFormatter` and what its four passes produce on a well-formed template |
| `Writers` | `abstract_writer.dfy` | the `AbstractWriter` class |
| `MemLog` | `mem_logger.dfy` | the `MemLogger` class and the format of its lines |

### How the source maps onto the model

- **Statics.** The static map `Logger::$module_loggers` becomes the `loggers` field of a `Registry` object. `getLogger`, `getParentLogger`, `log` and `logModule` are methods of the registry, because they read or grow that map.
- **Handler calls.** Every invocation is appended to the registry's `calls` sequence.
- **What `log` does.** It is stated against `Delivery.Delivered`, a function of a snapshot (`View`) of the tree: the level and handlers of each logger, with the unregistered names at their fresh state (level debug, no handlers).
- **Which handlers get a record.** `Delivery.DeliveryIff` characterises exactly which handler of which ancestor receives the record, and with which context.
- **`MemLogger::$instance`.** The static becomes a `LastInstance` object that the constructor updates.

## Model

| member | source | states |
|---|---|---|
| Levels.LevelNumeric | src/Logger.php:182-185 | a known level gets its rank from the table, an unknown name gets 0, and every rank is at most 7 |
| Levels.LevelRanks | src/Logger.php:43-52 | the eight PSR-3 levels, debug to emergency, are known and have ranks 0 to 7 in that order |
| Levels.KnownLevels | src/Logger.php:43-52 | a name is a level exactly when it is one of the eight PSR-3 level names |
| Levels.DisplayNamesAreUpperCase | src/Logger.php:43-52 | the display name stored for each level is its name upper-cased |
| Levels.RanksStrictlyOrdered | src/Logger.php:43-52 | a more severe level always has a strictly higher rank |
| LogContext.Get | src/Logger.php:129-133 | a key present in the context (`isset`) yields one of its entries' values; an absent key yields nothing |
| LogContext.WithDefault | src/Logger.php:129-133 | a key is added at the end only when absent: a present key leaves the context as it is, an absent one is appended with the default, and no other key changes |
| LogContext.Stamp | src/Logger.php:129-133 | the two `isset` defaults, `_module` then `_level`; LogContext.StampOnce states what they give |
| LogContext.StampOnce | src/Logger.php:129-133 | after the stamps, `_module` and `_level` are present, hold the caller's values or the origin's, and stamping again with any module and level changes nothing |
| LogContext.GetPrefix | src/Logger.php:129-133 | entries appended after a key's first occurrence do not change its value |
| Text.IndexOf | src/Logger.php:159 | `strpos`: a found index is an occurrence with no earlier one, and no result means no occurrence anywhere |
| Text.ToUpper | src/Formatter/PatternFormatter.php:64 | `strtoupper` keeps the length and upper-cases each character |
| Text.PadLeft | src/MemLogger.php:65 | `%10s` right-justifies: the width is the larger of ten and the text length, the text ends the result, and spaces fill the rest |
| Text.StrReplace | src/Formatter/PatternFormatter.php:69 | `str_replace` with one search string: one left-to-right scan that never rescans what it inserts, as the four lemmas below state |
| Text.StrReplaceAbsent | src/Formatter/PatternFormatter.php:69 | a search string that never occurs leaves the subject unchanged |
| Text.StrReplaceKeepsPrefix | src/Formatter/PatternFormatter.php:69 | a prefix without the first character of the search string passes through unchanged |
| Text.StrReplaceAtFront | src/Formatter/PatternFormatter.php:69 | an occurrence at the front is replaced and the scan continues after it |
| Text.StrReplaceSkip | src/Formatter/PatternFormatter.php:69 | a prefix in which no occurrence starts passes through unchanged |
| Placeholders.ReplaceAll | src/Logger.php:157-163 | after the inner `while` loop for one key, the message no longer contains that key's placeholder |
| Placeholders.ReplaceAt | src/Logger.php:162 | one `substr . $strval . substr` splice at the found index lowers the measure and leaves the end result of the key's loop unchanged |
| Placeholders.ReplaceEach | src/Logger.php:159-163 | the inner `while` loop for one key computes `ReplaceAll` |
| Placeholders.MeasureDrops | src/Logger.php:159-162 | each replacement of a shrinking value makes the measure strictly smaller, so the loop ends |
| Placeholders.Filled | src/Logger.php:152-166 | the message with each key's loop run in context order; Placeholders.FillPlaceholders computes it and the `Filled…` lemmas below state what it gives |
| Placeholders.FillPlaceholders | src/Logger.php:152-166 | the `foreach` over the keys computes `Filled`, the keys taken in context order |
| Placeholders.ReplaceAllIdentity | src/Logger.php:159-163 | the rewriting of one key changes the message exactly when the placeholder occurs in it |
| Placeholders.FilledEmptyContext | src/Logger.php:152-166 | an empty context leaves the message unchanged |
| Placeholders.FilledWithoutPlaceholders | src/Logger.php:152-166 | a message in which no key's placeholder occurs comes back unchanged |
| Placeholders.FilledWithoutBrace | src/Logger.php:152-166 | a message without `{` comes back unchanged, whatever the context |
| Placeholders.FilledLastKeyGone | src/Logger.php:155-164 | the placeholder of the last key does not occur in the result |
| Placeholders.SelfContainingValueLoops | src/Logger.php:159-162 | with a value equal to its own placeholder, the message `{key}` is found at 0 and rewritten to itself, so the loop never ends |
| Placeholders.GrowingValueLoops | src/Logger.php:159-162 | with key "" (placeholder `{}`) and value `}}{{`, which holds no `{}`, two turns take `}`^k `{{}` `{`^m to `}`^(k+2) `{{}` `{`^(m+2), so the message `{{}` never finishes |
| Placeholders.ReplaceAllSingle | src/Logger.php:159-162 | when the placeholder occurs at `pos` and nowhere before it, and replacing that occurrence leaves none, the key's loop makes exactly that one substitution |
| Placeholders.ReplaceAllAfter | src/Logger.php:159-162 | a prefix that holds no occurrence and ends with a character outside the placeholder is never touched: the loop on the prefix followed by `t` gives the prefix followed by the loop on `t` |
| Placeholders.ReplaceAllIsStrReplace | src/Logger.php:157-163 | for a value that is not empty and shares no character with the placeholder (`Inert`), the rescanning loop for one key gives what one `str_replace` scan gives: every occurrence becomes the value and all other text stays |
| Placeholders.InertFillable | src/Logger.php:159-162 | a context whose values are all inert satisfies `Fillable`, so every key's loop ends |
| Placeholders.FilledIsStrReplaced | src/Logger.php:152-166 | with inert values, filling the message is one `str_replace` per key, in context order |
| Placeholders.RescanDiffersFromStrReplace | src/Logger.php:159-162 | without `Inert` the two part: key `ab` with value `a` turns `{{ab}b}` into `a` by rescanning, while one `str_replace` scan gives `{ab}` |
| Placeholders.FilledUnmatchedKeptVerbatim | tests/Writer/AbstractWriterTest.php:126-128 | "Test {fmt} {bar}" with `fmt` = 3 gives "Test 3 {bar}": a placeholder without a key stays |
| Placeholders.FilledContextReplacement | tests/LoggerTest.php:124-131 | "{Message {nothing} {user} {foo.bar} a}" with `user` and `foo.bar` gives "{Message {nothing} Bob Bar a}" |
| Placeholders.FilledFormatterMessage | tests/Formatter/PatternFormatterTest.php:55-63 | "Foo {bar}" with `bar` = baz and `_module` gives "Foo baz" |
| ModuleNames.Normalize | src/Logger.php:58 | backslashes to dots, then `ltrim` and `rtrim` of dots, spaces and backslashes; the Trim and Normal lemmas below state what it gives |
| ModuleNames.TrimLeftSpec | src/Logger.php:58 | `ltrim` keeps the longest suffix not opening with a dot, space or backslash, and everything it drops is one of those |
| ModuleNames.TrimRightSpec | src/Logger.php:58 | `rtrim` keeps the longest prefix not ending with a dot, space or backslash, and everything it drops is one of those |
| ModuleNames.NormalizeIsNormal | src/Logger.php:58 | a normalised name has no backslash and no leading or trailing dot or space, and is no longer than the input |
| ModuleNames.NormalFixpoint | src/Logger.php:58 | a name is normal exactly when normalising leaves it unchanged |
| ModuleNames.NormalizeIdempotent | src/Logger.php:58 | normalising twice equals normalising once |
| ModuleNames.Explode | src/Logger.php:86-88 | `explode('.', s)`: at least one segment, none holding a dot; ModuleNames.ExplodeImplode and ModuleNames.ImplodeExplode make it the inverse of `Implode` |
| ModuleNames.Implode | src/Logger.php:86-88 | `implode('.', parts)`: the segments joined by dots, the inverse of `Explode` by the two lemmas below |
| ModuleNames.ExplodeImplode | src/Logger.php:86-88 | `implode('.', explode('.', m)) == m` |
| ModuleNames.ImplodeExplode | src/Logger.php:86-88 | exploding the join of dot-free segments gives back the segments |
| ModuleNames.ParentName | src/Logger.php:81-90 | the parent name is normal and strictly shorter than a non-root name |
| ModuleNames.ParentNameExplode | src/Logger.php:86-89 | the parent name is the re-normalised join of all segments but the last |
| ModuleNames.DropLastSegment | src/Logger.php:86-89 | the parent of `p.last` is `p` normalised, and a name without a dot has the root as parent |
| ModuleNames.ParentOfNested | src/Logger.php:86-89 | the parent of a normal `p` followed by `.last` is `p` itself |
| ModuleNames.ParentSkipsEmptySegment | src/Logger.php:86-89 | in `p..last` the empty segment is skipped: the re-normalisation strips the trailing dot and the parent is `p` |
| ModuleNames.Chain | src/Logger.php:147-149 | the ancestor chain starts at the module, ends at the root and has at most one more element than the name has characters |
| ModuleNames.ChainLinks | src/Logger.php:147-149 | every element of the chain before the last is non-root and is followed by its parent |
| ModuleNames.ChainShrinks | src/Logger.php:147-149 | the i-th ancestor is at least i characters shorter than the module |
| ModuleNames.IsRootAsWritten | src/Logger.php:76-79 | `empty($this->module)`: true for "" and for "0"; ModuleNames.ZeroIsRootAsWritten shows the clash with `getParentLogger` |
| ModuleNames.ZeroIsRootAsWritten | src/Logger.php:76-79 | `isRoot` is true for module "0", although "0" still has the root "" as its parent |
| ModuleNames.RootHasNoParent | src/Logger.php:81-85 | a module is the root (`=== ""`) exactly when its chain stops at itself |
| Delivery.Delivered | src/Logger.php:121-150 | the calls `log` makes at one logger, then those of its parent with the stamped context; Delivery.DeliveryIff and Delivery.DeliveredAlongChain characterise it |
| Delivery.CallsTo | src/Logger.php:135-145 | one call per handler, in attachment order, each with the record's level, message and context |
| Delivery.DeliveredRejected | src/Logger.php:126-127 | a record below the logger's threshold produces no calls at all, not even at an ancestor's handlers |
| Delivery.DeliveredFrame | src/Logger.php:121-150 | delivery depends only on the level and handlers of each node |
| Delivery.AcceptedPrefix | src/Logger.php:126-127 | the chain's accepted prefix ends at the first logger whose threshold rejects the level |
| Delivery.AcceptedPrefixIff | src/Logger.php:126-127 | an ancestor is inside the accepted prefix exactly when it and every node before it admit the level |
| Delivery.AcceptedPrefixMonotone | src/Logger.php:126-127 | a more severe level travels at least as far up the chain |
| Delivery.DeliveredAlongChain | src/Logger.php:121-150 | delivery is the handlers of the accepted prefix, nearest first, all called with the context stamped at the origin |
| Delivery.DeliveryIff | src/Logger.php:121-150 | a call is made exactly when its handler sits on an ancestor that, with every node before it, admits the level; it carries the level, the message and the origin's stamped context |
| Delivery.DeliveredContexts | src/Logger.php:129-133 | every call, at every level of the tree, carries the origin module and level unless the caller supplied them |
| Loggers.Logger.constructor | src/Logger.php:39-41 | a new logger has its name, level debug and no handlers |
| Loggers.Logger.SetLevel | src/Logger.php:92-99 | a known level is stored and the logger is returned; an unknown one fails with "Invalid log level: …" and the level stays |
| Loggers.Logger.GetLogHandlers | src/Logger.php:110-113 | the handler list; Loggers.Logger.AddLogHandler and Loggers.Logger.RemoveLogHandlers state how it changes |
| Loggers.Logger.AddLogHandler | src/Logger.php:101-108 | a writer or callable is appended; anything else fails with the source's message and the list stays |
| Loggers.Logger.RemoveLogHandlers | src/Logger.php:115-119 | the handler list becomes empty and the logger is returned |
| Loggers.PopSegment | src/Logger.php:86-88 | `explode`, `array_pop`, `implode` yield the text before the last dot |
| Loggers.AddsFreshMirrors | src/Logger.php:60-61 | creating loggers at their initial state keeps a snapshot of the tree accurate |
| Loggers.DeliveredAfterGrowth | src/Logger.php:60-61 | loggers created while a record travels do not change where it is delivered |
| Loggers.Registry.constructor | src/Logger.php:37 | the registry starts empty and with no calls |
| Loggers.Registry.GetLogger | src/Logger.php:54-64 | the logger filed under the normalised name: the existing one, or a fresh one that is then registered, with nothing else changed |
| Loggers.Registry.GetParentLogger | src/Logger.php:81-90 | the root gets none and nothing changes; otherwise the registered logger of the parent name, with at most that name added |
| Loggers.Registry.Log | src/Logger.php:121-150 | an unknown level fails with "Invalid log level: …" and makes no calls; otherwise the calls made are exactly `Delivered` over the tree as it was |
| Loggers.Registry.Bubble | src/Logger.php:126-149 | threshold, stamps, handlers and parent together append exactly `Delivered` for the logger |
| Loggers.Registry.Notify | src/Logger.php:135-145 | the handler loop appends one call per handler, in order |
| Loggers.Registry.LogModule | src/Logger.php:176-180 | a record for a module is delivered from the logger of its normalised name, and an unknown level fails |
| Formatting.NewPatternFormatter | src/Formatter/PatternFormatter.php:46-50 | the format is kept, and the date format defaults to `DateTime::ATOM` |
| Formatting.ModuleOf | src/Formatter/PatternFormatter.php:63 | the `_module` value of the context, or "" when it is absent |
| Formatting.Format | src/Formatter/PatternFormatter.php:60-70 | the four `str_replace` passes, module, level, message and date, over the template; the lemmas below state what they produce |
| Formatting.FormatWithoutPercent | src/Formatter/PatternFormatter.php:60-70 | a template without `%` comes back unchanged |
| Formatting.FormatWellFormed | src/Formatter/PatternFormatter.php:60-70 | on a well-formed template whose module, level and filled message hold no `%`, the four passes produce the template with each token replaced by its own field; the date may hold anything |
| Formatting.FormatMessageOnly | src/Formatter/PatternFormatter.php:60-70 | a template of only `%MESSAGE%` gives the filled message with any `%DATE%` in it replaced |
| Formatting.DateInsideMessage | src/Formatter/PatternFormatter.php:62-69 | a `%DATE%` inside the message is replaced too: the passes run after the message was inserted |
| Formatting.AdjacentNameSwallowsField | src/Formatter/PatternFormatter.php:62-69 | in "%LEVEL%MODULE%" the module pass consumes the `%` that would have closed `%LEVEL%`, so the level is never inserted |
| Formatting.FormatterTestRecord | tests/Formatter/PatternFormatterTest.php:36-53 | "[%DATE%][%MODULE%][%LEVEL%] %MESSAGE%" for error "Foo" from PFTest gives "[date][PFTest][ERROR] Foo", for any date format and any rendering of the date |
| Formatting.FormatterTestPlaceholders | tests/Formatter/PatternFormatterTest.php:55-63 | the same template with "Foo {bar}" and `bar` = baz gives "[date][PFTest][ERROR] Foo baz", for any date format and any rendering of the date |
| Writers.AbstractWriter.constructor | src/AbstractWriter.php:36-39 | no formatter, minimum level 0 |
| Writers.AbstractWriter.SetFormatter | src/AbstractWriter.php:44-48 | the formatter is stored and the writer is returned |
| Writers.AbstractWriter.SetLevel | src/AbstractWriter.php:55-59 | the rank of the level (0 for an unknown name) is stored and the writer is returned |
| Writers.AbstractWriter.Format | src/AbstractWriter.php:82-89 | with a formatter, its rendering; without one, the message with placeholders filled |
| Writers.AbstractWriter.IsLevelEnabled | src/AbstractWriter.php:68-73 | the explicit rank, or else the level's rank, against the minimum; the lemmas below state its answers |
| Writers.FreshWriterEnablesAll | src/AbstractWriter.php:39 | a writer at the default minimum accepts every level and every rank from 0 up |
| Writers.EnabledTable | src/AbstractWriter.php:68-73 | after setting the i-th level, the j-th level is accepted exactly when j >= i (the table of tests/Writer/AbstractWriterTest.php) |
| Writers.UnknownLevelEnabled | src/AbstractWriter.php:68-73 | an unknown level is accepted exactly when the minimum is at most 0 |
| Writers.EnabledMonotone | src/AbstractWriter.php:68-73 | with an explicit rank the name plays no part, and a higher rank is accepted whenever a lower one is |
| Writers.ExplicitRankAgrees | src/AbstractWriter.php:68-73 | passing the level's own rank explicitly gives the same answer as omitting it |
| MemLog.LastInstance.constructor | src/MemLogger.php:34 | the slot starts empty |
| MemLog.MemLogger.constructor | src/MemLogger.php:46-50 | the threshold is the level's rank, the log is empty, and the new object becomes the last instance |
| MemLog.MemLogger.Write | src/MemLogger.php:58-66 | a record below the threshold leaves the log unchanged; otherwise exactly one line, built from the level and the filled message, is appended |
| MemLog.MemLogger.GetLog | src/MemLogger.php:71-74 | the stored lines |
| MemLog.GetInstance | src/MemLogger.php:79-82 | the last constructed logger, or none |
| MemLog.Line | src/MemLogger.php:65 | `sprintf("%10s: %s")` of the upper-cased level and the message; the lemmas below state its shape |
| MemLog.ParseLineRoundTrip | src/MemLogger.php:65 | a line with a level of at most ten characters is 12 characters longer than the message, and the upper-cased level and the message can be read back from it |
| MemLog.LongLevelKept | src/MemLogger.php:65 | a level longer than the column is not truncated |
| MemLog.LevelNamesFit | src/MemLogger.php:65 | every PSR-3 level name fits the ten-character column |
| MemLog.InfoLine | src/MemLogger.php:65 | an info record "Foo" is stored as "      INFO: Foo" |

## Left out

- Placeholders.Filled: each value must be shorter than its placeholder or hold fewer `{` than it (`Fillable`). The source needs no such condition, and the model needs a decreasing measure. Outside `Fillable` the source can loop for ever: Placeholders.SelfContainingValueLoops shows a value holding its own placeholder, and Placeholders.GrowingValueLoops shows a value without it that still regrows the placeholder on every two turns. The same precondition is carried by Placeholders.FillPlaceholders, Formatting.Format, Writers.AbstractWriter.Format and MemLog.MemLogger.Write.
- Placeholders.ReplaceAllIsStrReplace: the closed form as `str_replace` is stated only for inert values. For other `Fillable` values the result of the rescanning loop is given by `ReplaceAll` alone, and Placeholders.RescanDiffersFromStrReplace shows that it can differ.
- Text: PHP strings are byte strings, while the model's `string` is a sequence of characters, and no encoding is modelled. Searching, splicing and `strtoupper` in the C locale (which changes the ASCII letters only) agree with the byte-level functions on valid UTF-8, but lengths and widths are counted in characters.
- Text.PadLeft: `%10s` (src/MemLogger.php:65) pads to ten bytes, while the model pads to ten characters, so a level holding a multi-byte character gets fewer spaces in PHP than in the model.
- MemLog.Line: for the same reason, the width of the level column and the 12 extra characters of MemLog.ParseLineRoundTrip are counted in characters, not bytes.
- Placeholders.FillPlaceholders: context values are already strings. `WF::str` (the conversion of objects, arrays and exceptions to text) is not part of this model.
- LogContext: the context is an ordered list of string key/value pairs. A key that is present is taken to be `isset`, so null values are not modelled. Integer keys are written as their decimal text.
- Formatting.Format: `date()` and the clock are a parameter `date: string -> string`, the rendering of the current time in a format. The format strings themselves are not interpreted.
- Formatting.FormatWellFormed: it is stated only for templates whose literal text holds no `%` and where every field except the last is followed by text opening with a separator, and only for a module, level and filled message without `%` (the date may hold anything). Outside those, the sequential `str_replace` can consume or create tokens, as Formatting.AdjacentNameSwallowsField and Formatting.DateInsideMessage show.
- Loggers.Registry.GetLogger: the module argument is a string. An object argument, whose class name `get_class` takes, is not modelled; callers pass the class name.
- Loggers.Logger.AddLogHandler: a handler is a value (`Writer`, `Callback` or `NotAHandler`). What a writer's `write` or a callback does when called is not modelled: each call is recorded in `calls`, and the writers are modelled on their own (`Writers`, `MemLog`).
- Loggers.Registry.Log: the threshold of `log` and of `Notify` is the logger's own level. Exceptions thrown by handlers are not modelled. `Log` and `LogModule` take the tree snapshot as a ghost parameter that must describe the registered loggers.
- Loggers.Registry.Valid: it does not carry each logger's own invariant (a known level, valid handlers). `Logger` methods require it of the logger they are called on.
- Loggers.Logger.constructor: the PHP constructor is private. The model does not stop other code from creating loggers outside the registry.
- Writers.AbstractWriter: only `PatternFormatter` is modelled as a formatter. `setFormatter` (src/AbstractWriter.php:44-48) accepts any `FormatterInterface`.
- MemLog.LastInstance: `MemLogger::$instance` is a class-level static. It is modelled as an object passed to the constructor.
- `Logger::printIndent` (src/Logger.php:168-174) writes to a stream and is not part of this model.
- The helper functions at src/Logger.php:188-231 only forward to `logModule` and are not modelled separately.
- The convenience methods inherited from PSR-3's `AbstractLogger` (`info`, `error`, …) only forward to `log` and are not modelled.
- `FileWriter`, `StreamWriter`, `ExternalLogWriter` and `LoggerAwareStaticTrait` are not part of this model.
- The `MemLogWriter` class exercised by tests/Writer/MemLogWriterTest.php is a different class from `MemLogger` and is not part of this model.
- `Logger` (src/Logger.php:35-186) has no accept modes, no `isLevelEnabled`, no registry reset and no `ROOT` alias, so the model has none either.

## Findings

| source | as written | input that shows it | evidently intended | confidence | as-written member | corrected member |
|---|---|---|---|---|---|---|
| src/Logger.php:76-79 | `isRoot` is `empty($this->module)`, which PHP also makes true for the string "0" | the logger of module "0": `isRoot()` is true, yet `getParentLogger()` returns the root logger "" | only the root "" is root, matching `getParentLogger`'s `=== ""` test | not executed; medium | ModuleNames.ZeroIsRootAsWritten | ModuleNames.RootHasNoParent |
