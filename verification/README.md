# Kryten, modelled in Dafny

Kryten watches EPICS Channel Access process variables (PVs). It runs a
user's shell command whenever a PV's value starts or stops meeting the match
criteria configured for it. This project models the sequential core beneath
the Channel Access plumbing. It covers both revisions of the program: the
newer `krytenApp/` one is primary and the 2012 `kryten/` one is a second
module.

| module | file | what it models |
|---|---|---|
| `Optional` | optional.dfy | an `Option` type |
| `CStrings` | cstrings.dfy | C string buffers as truncation, `strncmp`, `extract`, and `substitute` with its unbounded reference `ReplaceAll` |
| `Numbers` | numbers.dfy | 64-bit `long` and 32-bit `int`; glibc `strtol` (bases 10 and 16) and `strtod` read syntactically; `long_value`, `double_value`, `atoi` |
| `Variants` | variants.dfy | the variant value: `vkImage`, `Varient_Same`, `Varient_Le`, `Varient_Image` |
| `ConfigLexer` | config_lexer.dfy | `fgets` chunks, blank and comment lines, `;` sub-lines, the value token and its quoted payload |
| `Rules` | rules.dfy | `Comparision_Kind`, `Variant_Range` and one configuration entry |
| `Config` | config.dfy | the newer reader: `parse_value`, `parse_match`, `parse_line`, `Scan_Configuration` |
| `LegacyConfig` | legacy_config.dfy | the older reader: `scan_long`, `scan_double`, `scan_value`, `parse_line`, `Scan_Configuration_File`, including `errno` |
| `Filter` | filter.dfy | the newer engine: `is_value_a_match`, placeholder rendering, `call_command` with its `quit` built-in, `Process_PV_Update`/`Disconnect` |
| `LegacyFilter` | legacy_filter.dfy | the older engine: `check_in_range`, the `snprintf` command line, `Process_PV_Update`/`Disconnect` |
| `Callbacks` | callbacks.dfy | the buffered callback queue of the older revision |
| `Channel` | channel.dfy | the decisions of `krytenApp/pv_client.c`: what to subscribe for, which element to read and how to decode it, `Validate_Channel_Id`, the connection and event handlers, `Allocate_Client` |

Modelling conventions:

- Strings are `seq<char>`. A C buffer of `n` bytes holds `Truncate(s, n - 1)`.
- `long` is 64-bit. An `(int)` cast wraps modulo 2^32 (`Numbers.ToInt`).
- A double is `Finite(real) | Infinity | NaN`. `strtod` is read as exact
  rationals, without rounding.
- The newer revision's `Variant_Eq/Ne/Lt/Le/Gt/Ge` live in
  `krytenApp/utilities.c`, which is not part of this model. They are
  abstract: a `Relations` value of six functions that every engine member
  takes as a parameter.
- The `%.3f`/`%.6e` float image is a parameter too (`floatText`).
- The match memory `last_update_matched` is a plain `bool`. It starts
  `false` because the client is `calloc`ed, so a first non-matching update
  fires nothing.

## Model

| member | source | states |
|---|---|---|
| CStrings.Extract | kryten/utilities.c:100-116 | copies `src` up to `upto`, at most n-1 characters: the whole span when it fits, exactly n-1 characters of it otherwise |
| CStrings.SubstituteIsBoundedReplaceAll | kryten/utilities.c:121-173 | `substitute` is the unbounded left-to-right replace-all cut to n-1 characters: never longer than n-1, always a prefix of the full result |
| CStrings.SubstituteWithoutOccurrence | kryten/utilities.c:134-171 | with no occurrence of `find` (an empty `find` included) the result is `src` cut to n-1 characters, as `strncpy` would give |
| CStrings.ReplacementNotRescanned | kryten/utilities.c:142-165 | scanning resumes in `src` after each match, so replacement text that contains `find` is not replaced again |
| CStrings.ReplaceAllLength | kryten/utilities.c:142-165 | the unbounded result grows by \|rep\|-\|find\| for each non-overlapping occurrence |
| CStrings.Compare | kryten/utilities.c:350-352 | `strcmp`/`strncmp` is zero exactly when the strings are equal |
| CStrings.CompareTransitive | kryten/utilities.c:399-404 | the string order used by `Varient_Le` is transitive |
| Numbers.LongValue | kryten/utilities.c:178-228 | succeeds exactly when the image is not blank and a decimal, or else a hexadecimal, `strtol` consumes everything up to the trailing white space without a range error; the value is that conversion's, decimal first, and 0 on failure |
| Numbers.LongValueReadsDecimalImage | kryten/utilities.c:178-228 | every `long` printed in decimal is read back as itself by `long_value` and `atol` |
| Numbers.StrToLReadsDigitsPrefix | kryten/read_configuration.c:311 | `strtol` reads a run of decimal digits followed by a non-digit as their value, ending after the run, and reports a range error exactly when the value is beyond a `long` |
| Numbers.LongValueReadsHexDigits | kryten/utilities.c:208-216 | a token of hex digits with a non-decimal digit, such as `ff` or `1e5`, is an integer: its hexadecimal value |
| Numbers.LongValueRejectsBlank | krytenApp/utilities.h:109-115 | an empty or all-blank image fails with value 0 |
| Numbers.DoubleValue | kryten/utilities.c:232-281 | succeeds exactly when `long_value` fails, the image is not blank and `strtod` consumes everything up to the trailing white space; the value is `strtod`'s, and 0.0 on failure |
| Numbers.DoubleValueReadsDecimalFraction | kryten/utilities.c:232-281 | every `<digits>.<digits>` image is a double and not a long, read back as its exact rational value |
| Numbers.IntegerAndDoubleExclusive | kryten/utilities.c:242-280 | a corollary of `DoubleValue`'s contract: no image is accepted by both `long_value` and `double_value` |
| Numbers.DoubleValueNeedsATrueDouble | krytenApp/utilities.h:117-119 | "5.0" is a double while "5" is not a double but is the integer 5 |
| Numbers.ToInt | krytenApp/read_configuration.c:349 | the `(int)` cast yields an `int` congruent to its operand modulo 2^32, and keeps any value that fits |
| Variants.KindImageNamesKind | kryten/utilities.c:314-331 | `vkImage` gives each kind its own name |
| Variants.SameIsEquality | kryten/utilities.c:336-379 | `Varient_Same` holds exactly for equal kinds with equal payloads, Void included, NaN excepted |
| Variants.SameImpliesLe | kryten/utilities.c:383-480 | two non-Void values that are the same are each `Varient_Le` the other |
| Variants.LeOrdersStrings | kryten/utilities.c:399-404 | between strings `Varient_Le` is a total order whose two-way holding is `Varient_Same` |
| Variants.LeIsNotSame | kryten/utilities.h:130-142 | the string "5" and the integer 5 are `Le` both ways yet not the same: neither being less does not imply sameness |
| Variants.Image | kryten/utilities.c:484-518 | -1 exactly for Void; otherwise the length of the full image, with the text cut to size-1 characters and a prefix of the full image |
| Variants.ValueImageRoundTrip | kryten/utilities.c:489-516 | a string's image is the string itself and an integer's image is read back by `long_value` as that integer |
| ConfigLexer.ChunksCoverText | krytenApp/read_configuration.c:489-499 | the pieces `fgets` reads, concatenated, are the whole input |
| ConfigLexer.ChunksEndAtNewline | krytenApp/read_configuration.c:489-499 | no chunk has a newline anywhere but at its end |
| ConfigLexer.ChunksBounded | krytenApp/read_configuration.c:489-499 | every buffer `fgets` fills holds at least one and at most 255 characters |
| ConfigLexer.ChunkEndStops | krytenApp/read_configuration.c:489-499 | a chunk has no newline before its last character, and it ends in one unless the input or the buffer ran out |
| ConfigLexer.ChunksAppend | krytenApp/read_configuration.c:489-499 | after a newline-terminated prefix, chunking restarts: chunks of a+b are chunks of a then chunks of b |
| ConfigLexer.SubLinesJoin | krytenApp/read_configuration.c:510-525 | rejoining the sub-lines with `;` gives the line back, so splitting loses no text |
| ConfigLexer.Item | krytenApp/read_configuration.c:80-133 | the extracted item is the whole token when it has at most 255 characters, and otherwise the token's first 255 characters |
| ConfigLexer.QuotedTokenText | krytenApp/read_configuration.c:107-133 | a token that opens with a quote runs to and includes its closing quote |
| ConfigLexer.QuotedPayloadAsWritten | krytenApp/read_configuration.c:141-153 | as written: copies within 40 characters, but a lone `"` makes the count -1 and the copy overruns |
| ConfigLexer.LoneQuoteOverruns | krytenApp/read_configuration.c:141-153 | a line ending in `"` yields the item `"`, whose copy count is 2^64-1 bytes while the buffer is 41 |
| ConfigLexer.QuotedPayload | krytenApp/read_configuration.c:141-153 | corrected: the text between the quotes when there are at least two characters and at most 40 inside, nothing otherwise |
| ConfigLexer.QuotedPayloadAgrees | krytenApp/read_configuration.c:141-153 | on every item of two characters or more the corrected and as-written copies agree |
| Rules.Ordinal | krytenApp/pv_client.h:54-63 | the comparison kinds are numbered 0 to 7 in declaration order, and only ckVoid is 0 |
| Config.ClassifyToken | krytenApp/read_configuration.c:155-186 | Integer iff `long_value` accepts; otherwise Floating iff `double_value` accepts; otherwise the token itself as a String, or a failure if it is longer than 40 |
| Config.ParseValue | krytenApp/read_configuration.c:80-187 | corrected (quoted payload): a blank rest of line fails; a result is a well-formed non-Void value ending where its token ends |
| Config.ParseValueReadsToken | krytenApp/read_configuration.c:80-187 | corrected (quoted payload): a quoted token reads as the text between its quotes and fails exactly when that payload is rejected; any other token reads as its classification and fails exactly when it has none |
| Config.ParseValueReadsDecimalImage | krytenApp/read_configuration.c:80-187 | the decimal image of any `long` parses back to that integer |
| Config.ParseValueReadsQuotedString | krytenApp/read_configuration.c:141-153 | a quoted string of at most 40 characters parses to that string without its quotes |
| Config.OperatorTableOrder | krytenApp/read_configuration.c:200-238 | the operators are tried in `Comparision_Kind` order, and no operator is a prefix of a later one, so `<=` wins over `<` |
| Config.OperatorAt | krytenApp/read_configuration.c:200-238 | the first operator of the table that prefixes the text, or none exactly when no operator prefixes it |
| Config.ParseMatchOperator | krytenApp/read_configuration.c:200-238 | text that starts with an operator is read with the first operator of the table that prefixes it, then as an operator match from just after it |
| Config.ParseMatchWithoutOperator | krytenApp/read_configuration.c:241-266 | text that starts with no operator is read as a value match |
| Config.ParseMatch | krytenApp/read_configuration.c:195-266 | a blank rest of line fails; every rule produced is well formed, with an upper value exactly for a range |
| Config.ParseOperatorMatch | krytenApp/read_configuration.c:222-238 | accepted exactly when a value follows the operator; the rule is that operator on that value with no upper bound, ending where the value ends |
| Config.ParseValueMatch | krytenApp/read_configuration.c:241-266 | without an operator the rule is a well-formed Range or Equal |
| Config.ParseValueMatchReadsLower | krytenApp/read_configuration.c:241-266 | the item is read from its first value and the value after a following `~`; without a first value there is no rule |
| Config.AfterLower | krytenApp/read_configuration.c:243-266 | accepted exactly when the line goes on after the first value and, after a `~`, has a second value; a Range from the first to the second value exactly when a `~` follows, else Equal on the first value where it ends |
| Config.ValueMatchRange | krytenApp/read_configuration.c:241-266 | a value, ` ~ ` and a second value read as the Range between them |
| Config.ValueMatchEqual | krytenApp/read_configuration.c:241-266 | a value that the line does not follow with `~` reads as the Equal rule on it |
| Config.ParseIndex | krytenApp/read_configuration.c:327-376 | without `[` the index is 1; a `[` without a `]` fails; otherwise the index is read from `long_value` of the text between the brackets |
| Config.IndexAfter | krytenApp/read_configuration.c:345-376 | accepted exactly when `long_value` succeeded, its `int` conversion is at least 1 and the line goes on after the `]`; the index is that conversion |
| Config.ParseRules | krytenApp/read_configuration.c:378-425 | one to twenty well-formed rules that begin with those read before, after which the line goes on with neither a blank nor a `\|` |
| Config.ParseRulesExtends | krytenApp/read_configuration.c:378-425 | the rule after those read before is the match item read where the list goes on |
| Config.RulesAfter | krytenApp/read_configuration.c:384-424 | the list read so far plus the item just read; the line must go on after the item |
| Config.ParseRulesStep | krytenApp/read_configuration.c:378-425 | the list read from a position is what follows the match item read there |
| Config.RulesAfterEnd | krytenApp/read_configuration.c:414-418 | an item that the line follows with anything but `\|` ends the list there |
| Config.RulesAfterBar | krytenApp/read_configuration.c:414-424 | an item followed by `\|` lets the list go on after the `\|` while it has room for another item |
| Config.CollapseKeepsWords | krytenApp/read_configuration.c:429-453 | collapsing white space keeps every non-blank character in order |
| Config.Collapse | krytenApp/read_configuration.c:429-453 | the collapsed command has single spaces only, none at the end |
| Config.CommandParameters | krytenApp/read_configuration.c:429-461 | a single-word command is that word plus " %p %m %v %e"; any other command is its collapsed text, which contains a space |
| Config.ParseLine | krytenApp/read_configuration.c:272-464 | an accepted line's name is its first word, which starts with an alphanumeric or `$`; its index is at least 1, it has one to twenty well-formed rules and a non-empty command |
| Config.ParseAfterName | krytenApp/read_configuration.c:306-464 | accepted exactly when the index and then the rule list are read; the entry holds the name, that index, those rules and the command text where the list ends |
| Config.ParseLineReadsName | krytenApp/read_configuration.c:272-306 | a line whose first word, after any leading white space, is an acceptable name is read by the rest of the parse after that name; this covers the sub-lines after a `;`, which keep their leading blank |
| Config.ParseAfterNameReads | krytenApp/read_configuration.c:306-464 | an index and a rule list that are read give the entry of the name, index, rules and command |
| ConfigImages.ReadsRule | krytenApp/read_configuration.c:195-266 | a rule on integers written as `op v`, `v` or `lo ~ hi` is read back as itself |
| ConfigImages.ReadsRules | krytenApp/read_configuration.c:378-425 | written rules joined by ` \| ` are read back as themselves, after the rules read before |
| ConfigImages.AcceptsLine | krytenApp/read_configuration.c:272-464 | the line `name rules command` is accepted as that name, element 1, those rules and the command with " %p %m %v %e" appended |
| ConfigImages.AcceptsIndexedLine | krytenApp/read_configuration.c:272-464 | the line `name [index] rules command` is accepted as that entry, for every `int` index of at least 1 |
| Config.ScanSubLines | krytenApp/read_configuration.c:510-569 | no sub-line yields more than one entry |
| Config.SubLineEntry | krytenApp/read_configuration.c:510-569 | a sub-line yields one entry exactly when it parses and fits, and that entry is valid |
| Config.ScanConfigurationValid | krytenApp/read_configuration.c:469-577 | every stored entry parsed and fits the 80-byte name and 121-byte command buffers |
| Config.ScanConfigurationAppend | krytenApp/read_configuration.c:489-570 | lines are read independently: a file cut after a newline gives the entries of both parts in order |
| LegacyConfig.ScanLong | kryten/read_configuration.c:124-145 | succeeds exactly when a decimal, or else a hexadecimal, `strtol` consumes the whole item without a range error, with that conversion's value, decimal first; the empty item reads as 0 |
| LegacyConfig.ScanDouble | kryten/read_configuration.c:108-119 | success exactly when `strtod` consumes the whole item |
| LegacyConfig.ScanLongAgrees | kryten/read_configuration.c:124-145 | on a non-empty item that does not end in a blank, `scan_long` agrees with `long_value` |
| LegacyConfig.LegacyClassify | kryten/read_configuration.c:226-252 | Integer before Floating before an unquoted String of at most 40 characters |
| LegacyConfig.ClassificationAgrees | kryten/read_configuration.c:226-252 | the two revisions classify every non-empty blank-free token alike; the empty token is Integer 0 here and String "" in the newer reader |
| LegacyConfig.ScanValue | kryten/read_configuration.c:150-253 | corrected (quoted payload): a blank rest of line fails; a result is a well-formed non-Void value ending where its token ends; `errno` is cleared exactly when an unquoted token is read |
| LegacyConfig.ScanValueReadsToken | kryten/read_configuration.c:150-253 | corrected (quoted payload): a quoted token reads as the text between its quotes, any other token as its classification, and each fails exactly when that does |
| LegacyConfig.ParseRange | kryten/read_configuration.c:357-384 | an item is one well-formed range ending within the line |
| LegacyConfig.ParseRangeReads | kryten/read_configuration.c:349-373 | an item fails without a first value or when the line ends after it; a first value followed by anything but `~` is copied into the upper bound; after `~` the upper bound is the value read next, and the item fails without one |
| LegacyConfig.ParseRanges | kryten/read_configuration.c:347-430 | one to sixteen well-formed ranges, after which the line goes on |
| LegacyConfig.ParseRangesExtends | kryten/read_configuration.c:347-430 | the ranges read before stay in front, and the next range is the item read where the list goes on |
| LegacyConfig.ParseRangesEnd | kryten/read_configuration.c:378-420 | an item followed by anything but `~`, `\|` or the end of the line ends the list there |
| LegacyConfig.ParseRangesBar | kryten/read_configuration.c:418-430 | an item followed by `\|` goes on with the next item, carrying `errno` along |
| LegacyConfig.ParseRangesTooMany | kryten/read_configuration.c:418-430 | a `\|` after the sixteenth item fails the line |
| LegacyConfig.IndexThenRest | kryten/read_configuration.c:307-341 | a stale or fresh `errno` after the index `strtol` rejects the line, and an out-of-range index leaves `errno` set |
| LegacyConfig.RangesAndCommand | kryten/read_configuration.c:347-448 | an accepted line keeps the name and index it was given |
| LegacyConfig.RangesAndCommandReads | kryten/read_configuration.c:347-448 | accepted exactly when the items are; the entry holds the ranges read and the word after them as the command |
| LegacyConfig.ParseLineWithErrno | kryten/read_configuration.c:259-451 | as written: every accepted line has a valid name, an index of at least 1, one to sixteen well-formed ranges and a one-word command |
| LegacyConfig.IndexedLineUsesErrno | kryten/read_configuration.c:311-315 | on a line with an index, a set `errno` rejects the line, and an out-of-range index rejects it and sets `errno` |
| LegacyConfig.ParseLine | kryten/read_configuration.c:259-451 | corrected: the line parsed with `errno` clear; well formed, and an out-of-range index still rejects it |
| LegacyConfig.Stored | kryten/read_configuration.c:529-535 | the `strncpy` into the client keeps at most 80 name and 120 command characters as prefixes, with the index and ranges as they are |
| LegacyConfig.ScanConfigurationFile | kryten/read_configuration.c:456-557 | corrected (`errno` cleared per line): fails exactly without a client list or when the file cannot be opened; every stored client has an index of at least 1 and one to sixteen ranges |
| LegacyConfig.ScanLinesWellFormed | kryten/read_configuration.c:492-545 | every client the corrected loop stores has an index of at least 1 and one to sixteen ranges |
| LegacyConfig.StaleErrnoRejectsNextIndex | kryten/read_configuration.c:311-315 | after a line whose index is out of range, as written the next indexed line is rejected; the corrected scan keeps it |
| LegacyImages.ReadsRange | kryten/read_configuration.c:349-373 | a range on integers written as `v` (lower equal to upper) or `lo ~ hi` is read back as itself |
| LegacyImages.ReadsRanges | kryten/read_configuration.c:347-430 | written ranges joined by ` \| ` are read back as themselves after those read before, whatever `errno` was |
| LegacyImages.AcceptsLine | kryten/read_configuration.c:259-451 | the line `name ranges command` is accepted as that name, element 1, those ranges and that command, whatever `errno` was |
| LegacyImages.AcceptsIndexedLine | kryten/read_configuration.c:259-451 | with `errno` clear the line `name [index] ranges command` is accepted as that entry, for every `int` index of at least 1 |
| LegacyImages.StaleErrnoDropsWrittenLine | kryten/read_configuration.c:311-315 | after the line for an index beyond a `long`, the loop as written stores nothing for it and the next indexed line, while the corrected loop stores that next line |
| Filter.IsValueAMatch | krytenApp/filter.c:100-140 | no rule with the void comparison ever matches |
| Filter.FirstMatch | krytenApp/filter.c:153-165 | the first matching rule, with no match before it; none exactly when no rule matches |
| Filter.QuotedValue | krytenApp/filter.c:58-70 | the value in single quotes, whole when it fits the 44-byte image |
| Filter.IndexImage | krytenApp/filter.c:58-70 | the index in decimal, whole for every index below 10^9 |
| Filter.Render | krytenApp/filter.c:58-70 | the command line always fits the 278-byte buffer |
| Filter.RenderIsReplaceChain | krytenApp/filter.c:58-70 | when nothing is cut, the rendered command is replace-all of `%p`, then `%e`, then `%m`, then `%v` |
| Filter.ValueTextNotRescanned | krytenApp/filter.c:58-70 | `%v` goes last, so the value text is never itself substituted |
| Filter.CallCommand | krytenApp/filter.c:74-94 | a command beginning "quit " never runs; it quits with `atoi` of the rest exactly when the state begins with "match", and any other command runs as rendered |
| Filter.QuitCarriesExitCode | krytenApp/filter.c:74-84 | "quit n" in a match state quits with exit code n for every `int` n |
| Filter.PrefixIsStrNCmp | krytenApp/filter.c:74-84 | `strncmp(s, p, strlen(p)) == 0` is exactly "p is a prefix of s" |
| Filter.StateTexts | krytenApp/filter.c:173-175 | only the match state text "match " begins with "match" |
| Filter.ProcessUpdate | krytenApp/filter.c:144-181 | matched iff some rule matches; a call exactly when that differs from the last classification, in state "match " or "reject"; the value text is `Variant_Image` of the data cut to 44 bytes, and the effect is `call_command` of the template rendered with the name, index, state and that text; a quit only on a match |
| Filter.ProcessDisconnect | krytenApp/filter.c:186-189 | always a call in state "disconnect" with an empty value, whose effect is `call_command` of the template rendered with them, never a quit; the classification is kept |
| Filter.RunFiresOnChanges | krytenApp/filter.c:169-180 | over any sequence of updates, the number of commands equals the number of classification changes |
| Filter.RunAlternates | krytenApp/filter.c:169-180 | successive commands alternate between "match " and "reject", the first being the opposite of the starting state |
| Filter.FreshClientIsSilentUntilMatch | krytenApp/filter.c:169-180 | from the zeroed state, updates that match nothing issue no command |
| LegacyFilter.FirstInRange | kryten/filter.c:87-99 | the first range holding the value, with none before it; none exactly when no range holds it |
| LegacyFilter.Render | kryten/filter.c:54-73 | the command line fits its buffer and is a prefix of `<cmd> <pv> '<state>' '<value>' <index> &` |
| LegacyFilter.RenderNeverTruncates | kryten/filter.c:54-73 | with a stored command and name and state and value images that fit their buffers, the line is never cut |
| LegacyFilter.ProcessUpdate | kryten/filter.c:78-115 | matched iff some range holds the value; a command exactly on a change, in state "entry" or "exit " |
| LegacyFilter.ProcessDisconnect | kryten/filter.c:120-123 | always the command with "disconnect" and an empty value; the classification is kept |
| LegacyFilter.RangeRuleIsCheckInRange | kryten/filter.c:45-50 | with `Varient_Le` as the `le` relation, a newer range rule is the older `check_in_range` |
| LegacyFilter.EnginesAgree | kryten/filter.c:78-115 | under that reading both engines classify every update alike and fire on the same updates |
| LegacyFilter.LoneValueIsLooserThanSame | kryten/read_configuration.c:369-373 | an older lone value is a range, looser than the newer Equal: "5" admits the integer 5 |
| Callbacks.Initialise | kryten/buffered_callbacks.c:255-259 | the list starts empty |
| Callbacks.Load | kryten/buffered_callbacks.c:139-150 | the item is appended at the tail and the rest is unchanged |
| Callbacks.Unload | kryten/buffered_callbacks.c:156-171 | nothing exactly when the list is empty; otherwise the head and the rest of the list |
| Callbacks.ConnectionHandler | kryten/buffered_callbacks.c:178-189 | queues a connection item |
| Callbacks.EventHandler | kryten/buffered_callbacks.c:195-215 | queues an event item owning its payload, or none |
| Callbacks.PrintfHandler | kryten/buffered_callbacks.c:221-250 | queues the expanded text and returns ECA_NORMAL |
| Callbacks.Dispatch | kryten/buffered_callbacks.c:287-305 | each tag reaches its own handler and only an unknown tag reaches the error report |
| Callbacks.BatchSize | kryten/buffered_callbacks.c:279-316 | at most the items present and at most `max` when `max` >= 1, yet at least one when any is present |
| Callbacks.ProcessBatch | kryten/buffered_callbacks.c:273-319 | returns the number removed, dispatches exactly those items oldest first and leaves the rest; one item for `max` <= 0 |
| Callbacks.FifoOrder | kryten/buffered_callbacks.c:139-171 | loading items and then unloading them all gives them back in order |
| Callbacks.BatchesCompose | kryten/buffered_callbacks.c:273-319 | dispatching two consecutive runs of items is dispatching the run that covers both |
| Callbacks.SuccessiveBatches | kryten/buffered_callbacks.c:273-319 | two calls with limits a and then b take as many items as one call with limit a+b, and dispatch the same items in the same order |
| Channel.SubscriptionFor | krytenApp/pv_client.c:103-195 | a request exactly for a non-empty channel, a first rule of a usable kind and an index within the channel's elements; STRING, LONG or DOUBLE requests by that kind, for `element_index` elements |
| Channel.EnumAsWritten | krytenApp/pv_client.c:328-350 | as written: the `(dbr_short_t)` cast makes a value of 32768 or more negative, and then the table is indexed out of bounds |
| Channel.EnumSignBitMisreads | krytenApp/pv_client.c:328-350 | the enum value 65535 of a two-state enum reads entry -1 and becomes the integer -1 |
| Channel.EnumDecoded | krytenApp/pv_client.c:395-412 | corrected: the state string, cut to 26 characters, when the value names a state and "" otherwise; the value itself as an Integer |
| Channel.EnumAgreesBelowSignBit | krytenApp/pv_client.c:395-412 | for values below 32768 the as-written and corrected readings agree |
| Channel.DecodeElement | krytenApp/pv_client.c:301-437 | corrected (enum decode): strings are cut to 40 characters; shorts, chars and longs are Integers; floats and doubles are Floating |
| Channel.Select | krytenApp/pv_client.c:276-437 | corrected (enum decode): an update is dropped exactly when it has fewer than `element_index` elements; other types are not decoded; otherwise element number-1 is read, and a time update keeps the enum table |
| Channel.SubscriptionNeverAsksForEnum | krytenApp/pv_client.c:125-139 | neither the initial get nor the subscription asks for an enum buffer type |
| Channel.SubscriptionRoundTrip | krytenApp/pv_client.c:103-437 | the reply to what `Subscribe_Channel` requests is never dropped and decodes to a value of the first rule's kind |
| Channel.AllocateClient | krytenApp/pv_client.c:795-816 | both magics set; no channel and no subscription; empty name, rules and command; not matched |
| Channel.ValidateChannelId | krytenApp/pv_client.c:501-539 | the client exactly when the channel and user data exist, both magics are intact and the client's own channel id is this one |
| Channel.FreshClientIsNotReachable | krytenApp/pv_client.c:501-539 | a freshly allocated client never passes validation |
| Channel.ConnectionHandler | krytenApp/pv_client.c:547-590 | on connection it records the element count and makes the subscription; on disconnection it unsubscribes and always issues the disconnect command; configuration and match memory are kept |
| Channel.GetEventHandler | krytenApp/pv_client.c:219-446 | corrected (enum decode): a dropped update changes nothing; an undecoded one voids the data; otherwise it stores the value, runs the engine, clears the first-update flag and keeps the configuration |
| Channel.EventHandler | krytenApp/pv_client.c:595-636 | only a normal-status Get or Event reply with a payload reaches `Get_Event_Handler` |

## Left out

- Channel Access itself is left out: creating and clearing channels and subscriptions, `ca_pend_event`, and the `Process_Clients` poll loop with its sleeps. These are foreign I/O and timing. Channel ids and the user data registered with a channel are parameters, and every CA call is taken to succeed.
- Channel element counts are taken to be below 2^32, the width of the Channel Access count.
- The mutex, `malloc`, `memcpy` and `free` of the callback queue are left out: a dequeued item is simply gone.
- `system()`, `fopen`, `fgets` on a real file and every `printf` diagnostic are left out. A rendered command is an `Effect` value, and a file is its text or `None`.
- `printf` is assumed to leave `errno` alone.
- Floating-point formatting (`%.3f`/`%.6e`) is a parameter. `strtod` rounding and its `ERANGE` are not modelled; values are exact rationals.
- Numbers.DoubleValue: a literal beyond the range of a double, such as `1e999`, makes the C `double_value` fail through `ERANGE`, so `parse_value` stores it as a String; the model reads it as Floating with its exact value.
- LegacyConfig.ScanValue: the same literal makes `scan_double` fail and leaves `errno` at `ERANGE` (kryten/read_configuration.c:112-114). That is a second way the stale `errno` can reject the next indexed line; the model sets `clearsErrno` for every unquoted token and shows the stale `errno` only through an overflowing index.
- `krytenApp/utilities.c` is not part of this model, so the newer `Variant_*` relations are abstract parameters.
- Numbers.LongValue, Numbers.DoubleValue, CStrings.Extract, CStrings.Substitute and Variants.Image follow the `kryten/utilities.c` bodies. The newer revision's own `long_value`, `double_value`, `extract`, `substitute` and `Variant_Image` are in `krytenApp/utilities.c`, which is not part of this model; its header `krytenApp/utilities.h` states the same contracts.
- Config.ParseValue and LegacyConfig.ScanValue read a quoted token with the corrected `QuotedPayload`: a lone `"` is rejected, where the code overruns the buffer (see Findings).
- Channel.DecodeElement, Channel.Select and Channel.GetEventHandler use the corrected `EnumDecoded`. For an enum value of 32768 or more, in integer mode the model gives the value itself where krytenApp/pv_client.c:348 and 410 give the value minus 65536, and in string mode it gives "" where the code reads before the table (see Findings). The difference is latent: `Subscribe_Channel` never asks for an enum type (Channel.SubscriptionNeverAsksForEnum, Channel.SubscriptionRoundTrip), so only a future enum request could reach these branches.
- LegacyConfig.ScanConfigurationFile reads the lines with the corrected loop, which clears `errno` before each line; the loop as written is `LegacyConfig.ScanLinesAsWritten` (see Findings).
- Config.ParseMatch, LegacyConfig.ParseRange and LegacyConfig.ParseRanges: their own contracts state the shape of the result only; what they read is stated by the lemmas listed with them in the Model table.
- `main`, signal handling, `daemon()`, the command-line helpers and the information and licence texts are left out: they are program lifecycle and text output only.
- `Print_Match_Information` and `Print_Connection_Timeout` are left out: they are text output only.
- The older client's 80-byte `pv_name` is not modelled as left unterminated by `strncpy`; `LegacyConfig.Stored` keeps the text.
- The 400-byte `vsprintf` buffer of the printf producer is left out: its text arrives already expanded.
- Status, severity, time stamps, units, limits, host name and field type that `Get_Event_Handler` and the connection handler copy are left out: nothing in the engine reads them.
- `Allocate_Client` appending to the client list is left out, as is allocation failure (`callocMustSucceed`).
- Channel.Select: requires an index of at least 1, which every configured entry has; with index 0 and an empty update the code would read element -1.
- Callbacks.ProcessBatch: dispatching is recorded as a list of handler calls; the handlers themselves are the Channel module's.

## Findings

| source | as written | input that shows it | evidently intended | confidence | as-written member | corrected member |
|---|---|---|---|---|---|---|
| krytenApp/read_configuration.c:141-153 (also kryten/read_configuration.c:209-221) | a quoted item's length minus 2 is the copy count, with no check for the closing quote | a line whose last character is a lone `"`: the item is `"`, the count is -1, and `strncpy` gets 2^64-1 | a lone quote rejected like any malformed value | medium, not executed | ConfigLexer.QuotedPayloadAsWritten, ConfigLexer.LoneQuoteOverruns | ConfigLexer.QuotedPayload |
| kryten/read_configuration.c:311-315 | the index `strtol` tests `errno` without clearing it first | `A [99999999999999999999] 1 cmd` followed by `B [2] 1 cmd`: the second line is rejected | each index judged on its own conversion | high, not executed | LegacyConfig.ParseLineWithErrno, LegacyConfig.StaleErrnoRejectsNextIndex, LegacyImages.StaleErrnoDropsWrittenLine | LegacyConfig.ParseLine, LegacyConfig.ScanLines, LegacyImages.AcceptsIndexedLine |
| krytenApp/pv_client.c:328-339 (also 395-406) | the unsigned enum value is cast to `dbr_short_t` before the `< num_states` test | enum value 65535 with 2 states: -1 passes the test and `enum_strings[-1]` is read; latent, since `Subscribe_Channel` never requests an enum type (Channel.SubscriptionNeverAsksForEnum, Channel.SubscriptionRoundTrip), so only an added enum request could deliver it | a value outside the states gives "" | low, not executed | Channel.EnumAsWritten, Channel.EnumSignBitMisreads | Channel.EnumDecoded |
