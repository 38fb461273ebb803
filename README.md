# Peltas core, modelled in Dafny

Peltas polls an Alfresco content repository for changes and turns each
change into parameterised SQL executions. This project models the core of
that pipeline and proves properties of the model:

- **Delimited-map parser** (`string_to_map.dfy`): `StringToMapUtil.stringToMap`
  walks the `Map.toString()` text `{k=v, k2={..}, k3=[..]}` with a bracket
  depth counter; `valueAsList` splits a bracketed list.
- **Rule classification** (`evaluators.dfy`, `classification.dfy`,
  `handler_configuration.dfy`, `router.dfy`): the evaluator registry with its
  default, the contains evaluator, match counting and the choice of the best
  rule in `findFirstBestMatchHandler`, the ambiguity check over the sha map,
  the handler configuration class in its two copies (boot and
  core.alfresco.config, the latter with the execution cache and the resource
  map), and the router's decision.
- **Property transform** (`property_lookup.dfy`, `transform.dfy`,
  `converters.dfy`, `handler_model.dfy`): `PeltasHandler`'s two passes
  (literals and field lookups, then `prop:` references), format-and-convert of
  the values, the converters the conversion service is given, the handler
  configuration objects and the data holder.
- **Incremental reader and cursor** (`nodes.dfy`, `workspace_reader.dfy`,
  `item_reader.dfy`, `cursor.dfy`, `processor.dfy`): both
  `AlfrescoWorkspaceRestReader` copies as one class with a variant (the
  current `io.peltas.alfresco` reader and the older
  `io.peltas.core.alfresco.workspace` one), the six-transaction window, the
  stable sort by transaction, the skip watermark, first-in first-out pairing
  of metadata with nodes, conversion to audit records, the list-buffer base
  readers, the cursor record and `PeltasProcessor`'s ref rewrite.
- **Pipeline executor** (`writers.dfy`, `jdbc.dfy`, `jdbc_writers.dfy`): the
  write templates of `PeltasExecutionItemWriter` and `PeltasItemWriter` (call
  order and collection fan-out) and the two JDBC writers (result columns fed
  back as `execution.column`, a fresh parameter copy per collection element in
  `PeltasJdbcWriter`, one accumulated copy per collection in
  `PeltasJdbcBatchWriter`).
- Shared pieces: `wrappers.dfy` (Option, Result and the Java exception kinds),
  `values.dfy` (the Java objects passed around and the audit record),
  `text.dfy` (Java string primitives and 32-bit wrap-around), `seq_facts.dfy`.

Java exceptions are `Result` errors naming the exception kind. A Java map in
iteration order is a sequence of pairs. Loops in the source are methods with
loop invariants proved against specification functions; the classes whose
fields the source updates are Dafny classes with `modifies` clauses.

## Model

| member | source | states |
|---|---|---|
| Text.TrimIsTrimmed | src/main/java/io/peltas/core/alfresco/integration/PeltasHandler.java:178 | String.trim leaves no char at or below ' ' at either end |
| Text.TrimIdempotent | src/main/java/io/peltas/core/alfresco/integration/PeltasHandler.java:187 | trimming twice is trimming once |
| Text.LastIndexOf | src/main/java/io/peltas/alfresco/AlfrescoWorkspaceRestReader.java:318 | lastIndexOf finds the char, and no occurrence lies after it; no answer means the char does not occur |
| Text.JoinSplitAll | src/main/java/io/peltas/alfresco/AlfrescoWorkspaceRestReader.java:83-84 | splitting at a delimiter and joining the pieces with it gives back the text |
| Text.SplitAllPiecesFree | src/main/java/io/peltas/alfresco/AlfrescoWorkspaceRestReader.java:83-84 | no piece of a split contains the delimiter |
| Text.SplitAllJoinChar | src/main/java/io/peltas/alfresco/AlfrescoWorkspaceRestReader.java:83-84 | pieces free of the delimiter char, joined by it, split back into the same pieces |
| Text.StripTrailingEmpty | src/main/java/io/peltas/alfresco/AlfrescoWorkspaceRestReader.java:83-84 | String.split drops trailing empty pieces only: the result is a prefix of the pieces, ends in a non-empty piece, and everything dropped is empty |
| Text.SplitOnce | src/main/java/io/peltas/alfresco/AlfrescoWorkspaceRestReader.java:286 | split(":", 2) cuts at the first occurrence only, giving two pieces exactly when the char occurs |
| Text.ReplaceFirst | src/main/java/io/peltas/core/alfresco/integration/PeltasHandler.java:275 | replaceFirst leaves text without the target unchanged |
| Text.ParseLong | src/main/java/io/peltas/alfresco/AlfrescoWorkspaceRestReader.java:85-89 | Long.valueOf answers a value in the long range, and fails only with NumberFormatException |
| Text.ParseInt | src/main/java/io/peltas/core/batch/PeltasProcessor.java:113-115 | Integer.valueOf answers a value in the int range, and fails only with NumberFormatException |
| Text.ParseLongOfIntToString | src/main/java/io/peltas/alfresco/AlfrescoWorkspaceRestReader.java:85-89 | a long written in decimal reads back as itself |
| Text.ParseIntOfIntToString | src/main/java/io/peltas/core/batch/PeltasProcessor.java:113-115 | an int written in decimal reads back as itself |
| Text.Wrap32 | src/main/java/io/peltas/core/batch/PeltasProcessor.java:56-58 | int arithmetic wraps: the result is in the int range, equals the exact value when that is in range, and differs from it by a multiple of 2^32 |
| StringToMapUtil.FindMapValue | src/main/java/io/peltas/core/alfresco/StringToMapUtil.java:139-163 | the scan returns the position of the closing char that brings the counter below one, or the length of the text when there is none (ValueEnd) |
| StringToMapUtil.ScalarEnd | src/main/java/io/peltas/core/alfresco/StringToMapUtil.java:139-163 | a scalar value (blank as first char, counter starting at one) ends at the first delimiter, or at the end of the text |
| StringToMapUtil.EndFromShift | src/main/java/io/peltas/core/alfresco/StringToMapUtil.java:78-101 | a bracketed value ends at the same place whether it is scanned inside the whole text or on its own |
| StringToMapUtil.NoCloserRunsToEnd | src/main/java/io/peltas/core/alfresco/StringToMapUtil.java:146-162 | with no closing char ahead, the scan never stops early and returns the length of the text |
| StringToMapUtil.TextValue | src/main/java/io/peltas/core/alfresco/StringToMapUtil.java:116-118 | the literal "null" becomes a Java null, any other text stays a String |
| StringToMapUtil.SkipBlanks | src/main/java/io/peltas/core/alfresco/StringToMapUtil.java:71-76 | the value starts at the first position that is not a blank; every position skipped is a blank |
| StringToMapUtil.ReadValue | src/main/java/io/peltas/core/alfresco/StringToMapUtil.java:78-113 | a value ends after the position it starts at and at most one past the end; the only failure is the out-of-range substring |
| StringToMapUtil.ReadEntryValue | src/main/java/io/peltas/core/alfresco/StringToMapUtil.java:78-118 | the body of the value loop computes ReadValue: a map or list value runs to its matching closer, a scalar to the next delimiter |
| StringToMapUtil.ScanOther | src/main/java/io/peltas/core/alfresco/StringToMapUtil.java:59-64 | a char other than '=' moves the loop on, and a blank becomes the new key start |
| StringToMapUtil.ScanPastEnd | src/main/java/io/peltas/core/alfresco/StringToMapUtil.java:58-128 | the loop stops at the end of the text and answers the map built so far |
| StringToMapUtil.ScanAssign | src/main/java/io/peltas/core/alfresco/StringToMapUtil.java:66-125 | at '=': when only blanks follow, the loop ends with the map unchanged; otherwise the value is read, put under the trimmed key, and the loop resumes past it; a failed read ends the parse with that error |
| StringToMapUtil.AssignEntry | src/main/java/io/peltas/core/alfresco/StringToMapUtil.java:66-125 | the '=' branch of the loop does what ScanAssign states: the error of the value read, or the next key start and the map with the entry put |
| StringToMapUtil.StringToMap | src/main/java/io/peltas/core/alfresco/StringToMapUtil.java:45-129 | the loop computes ParsedMap; blank input is refused with IllegalArgumentException, as is input that neither starts with '{' nor ends with '}'; the only other failure is the out-of-range substring |
| StringToMapUtil.ScanAssignOk | src/main/java/io/peltas/core/alfresco/StringToMapUtil.java:66-125 | a value read at the first non-blank after '=' is put under the trimmed key text, and the loop resumes after it |
| StringToMapUtil.ScanKey | src/main/java/io/peltas/core/alfresco/StringToMapUtil.java:59-66 | the chars of a key (no blank, no '=') move the loop on without changing the key start or the map |
| StringToMapUtil.KeyTrimmed | src/main/java/io/peltas/core/alfresco/StringToMapUtil.java:66-120 | the key text from the last blank up to '=' trims to the key |
| StringToMapUtil.ReadWritten | src/main/java/io/peltas/core/alfresco/StringToMapUtil.java:78-118 | a value as Map.toString writes it reads back as its value: a nested map or list as its own text, a scalar trimmed, "null" as null |
| StringToMapUtil.ReadAfterEq | src/main/java/io/peltas/core/alfresco/StringToMapUtil.java:71-118 | the value written right after '=' is read without skipping and yields the written value |
| StringToMapUtil.ScanValue | src/main/java/io/peltas/core/alfresco/StringToMapUtil.java:66-125 | from an entry's '=', the loop puts the written value under the key and resumes two chars past the value |
| StringToMapUtil.ScanEntry | src/main/java/io/peltas/core/alfresco/StringToMapUtil.java:59-125 | one written entry "k=v" is put into the map, and the loop resumes after the delimiter and the blank that follow it |
| StringToMapUtil.ScanBody | src/main/java/io/peltas/core/alfresco/StringToMapUtil.java:59-128 | the text of a list of entries is parsed into the map obtained by putting those entries in order |
| StringToMapUtil.ParsedMapOfRender | src/main/java/io/peltas/core/alfresco/StringToMapUtil.java:45-129 | round trip: the Map.toString text of well-formed entries parses back into the map they make; nested maps and lists are kept as text and "null" becomes null |
| StringToMapUtil.ParsedMapOfBraces | src/main/java/io/peltas/core/alfresco/StringToMapUtil.java:50-56 | text wrapped in braces is parsed by scanning what lies between them |
| StringToMapUtil.UnclosedNestedFails | src/main/java/io/peltas/core/alfresco/StringToMapUtil.java:56-82 | the outer closing brace is dropped before the scan, so a nested map whose brace is the last char of the input fails at the substring call (IndexOutOfBounds) |
| StringToMapUtil.UnclosedScan | src/main/java/io/peltas/core/alfresco/StringToMapUtil.java:66-82 | the scan of "k={body" with no closing brace in body fails with IndexOutOfBounds |
| StringToMapUtil.UnclosedRead | src/main/java/io/peltas/core/alfresco/StringToMapUtil.java:78-82 | reading the value "{body" with no closing brace fails with IndexOutOfBounds |
| StringToMapUtil.TrimmedPieces | src/main/java/io/peltas/core/alfresco/StringToMapUtil.java:182-184 | one element per piece, in order, each trimmed |
| StringToMapUtil.ValueAsList | src/main/java/io/peltas/core/alfresco/StringToMapUtil.java:171-191 | the method computes ListOf: null and the word "null" give no elements; a String loses its outer chars and is cut at every delimiter, each piece trimmed; a collection is copied; anything else is refused with IllegalArgumentException |
| StringToMapUtil.PiecesOfJoin | src/main/java/io/peltas/core/alfresco/StringToMapUtil.java:179-180 | cutting the text "a, b, c" at the delimiter gives the elements with the blank that followed each delimiter |
| StringToMapUtil.TrimBlanked | src/main/java/io/peltas/core/alfresco/StringToMapUtil.java:182-184 | trimming those pieces gives back the elements |
| StringToMapUtil.ListOfListText | src/main/java/io/peltas/core/alfresco/StringToMapUtil.java:171-191 | round trip: the Collection.toString text of trimmed, non-empty elements without the delimiter reads back as those elements |
| Evaluators.IsValueMapped | src/main/java/io/peltas/core/expression/ContainsExpressionEvaluator.java:30-34 | the contains evaluator holds exactly when the multi-value reading of the key lists the right-hand String; an evaluator outside this model decides by the external parameter |
| Evaluators.ContainsAbsentKey | src/main/java/io/peltas/core/expression/ContainsExpressionEvaluator.java:31-33 | a key whose field is absent reads as an empty list, so contains is false |
| Evaluators.ContainsListedText | src/main/java/io/peltas/core/expression/ContainsExpressionEvaluator.java:30-34 | a field holding the list text "[a, b, ...]" contains exactly the listed Strings |
| Evaluators.Resolve | src/main/java/io/peltas/core/expression/EvaluatorExpressionRegistry.java:36-48 | the lookup answers the default or one of the registered evaluators, never null |
| Evaluators.PaddedNameResolvesToDefault | src/main/java/io/peltas/core/expression/EvaluatorExpressionRegistry.java:32-45 | names are trimmed on registration but not on lookup, so a padded name finds the default |
| Evaluators.EvaluatorRegistry.constructor | src/main/java/io/peltas/core/expression/EvaluatorExpressionRegistry.java:27-30 | the default evaluator is registered under its own trimmed name |
| Evaluators.EvaluatorRegistry.RegisterEvaluator | src/main/java/io/peltas/core/expression/EvaluatorExpressionRegistry.java:32-34 | the evaluator is put under its trimmed name, replacing an earlier one; the registry keys stay trimmed |
| Evaluators.EvaluatorRegistry.GetEvaluatorExpression | src/main/java/io/peltas/core/expression/EvaluatorExpressionRegistry.java:36-48 | the lookup on the registry's contents (Resolve): no name gives the default, a registered name its evaluator, any other name the default |
| Evaluators.RegisteredIsFound | src/main/java/io/peltas/core/expression/EvaluatorExpressionRegistry.java:32-47 | after registering an evaluator, its trimmed name finds exactly it |
| Evaluators.RegisterKeepsOthers | src/main/java/io/peltas/core/expression/EvaluatorExpressionRegistry.java:32-47 | registering under one name leaves every other lookup as it was |
| PropertyLookup.FieldOfPath | src/main/java/io/peltas/core/alfresco/integration/PeltasHandler.java:311-313 | for "k@sub" with no '@' in k, the field read is k |
| PropertyLookup.SingleValue | src/main/java/io/peltas/core/alfresco/integration/PeltasHandler.java:308-330 | a key without '@' is a plain field read; the only failure is the RuntimeException of a String field under "k@sub" |
| PropertyLookup.MissingContainerReadsEmpty | src/main/java/io/peltas/core/alfresco/integration/PeltasHandler.java:311-325 | "k@sub" on an absent or null field k reads as the empty String, never as null |
| PropertyLookup.SubKeyReadsMapEntry | src/main/java/io/peltas/core/alfresco/integration/PeltasHandler.java:311-315 | "k@sub" on a map-valued field k reads the entry sub of that map |
| PropertyLookup.MultiValue | src/main/java/io/peltas/core/alfresco/integration/PeltasHandler.java:332-348 | the multi-value read fails only as valueAsList fails (IndexOutOfBounds, IllegalArgument) |
| PropertyLookup.MultiValueIgnoresSubKey | src/main/java/io/peltas/core/alfresco/integration/PeltasHandler.java:335-346 | the multi-value read of "k@sub" lists the whole field k, whatever sub is |
| HandlerModel.HandlerProperties.constructor | src/main/java/io/peltas/core/expression/PeltasHandlerProperties.java:21-25 | a new handler has the given evaluator, mapper and pipeline and no handler name |
| HandlerModel.HandlerProperties.GetPipeline | src/main/java/io/peltas/core/expression/PeltasHandlerProperties.java:43-50 | a configured pipeline is answered as is; without one, a pipeline whose executions are exactly the handler name (and nothing else), if there is a name; otherwise none |
| HandlerModel.HandlerProperties.SetHandlerName | src/main/java/io/peltas/core/expression/PeltasHandlerProperties.java:60-62 | only the handler name changes |
| HandlerModel.PipelineOfNamedHandler | src/main/java/io/peltas/core/expression/PeltasHandlerProperties.java:43-48 | reading the default pipeline never stores it: the field stays empty while the answer runs just the handler name |
| HandlerModel.DataHolder.constructor | src/main/java/io/peltas/core/batch/PeltasDataHolder.java:35-68 | the record, properties, builder and handler are kept; before anything is added the additional data reads as an empty map |
| HandlerModel.DataHolder.AdditionalData | src/main/java/io/peltas/core/batch/PeltasDataHolder.java:66-68 | the stored entries, or an empty map when none was ever added |
| HandlerModel.DataHolder.AddAdditionalData | src/main/java/io/peltas/core/batch/PeltasDataHolder.java:59-64 | the map is created on first use; the entry is put, overwriting an earlier one under the same key; nothing else changes |
| HandlerModel.HandlerProperties.CopyFrom | src/main/java/io/peltas/core/alfresco/integration/PeltasRouter.java:69 | copying the properties of a handler sets all four fields of the target to the source's |
| Router.PeltasRouter.constructor | src/main/java/io/peltas/core/alfresco/integration/PeltasRouter.java:39-44 | the router keeps the configuration, the no-match handler name and the exception flag |
| Router.PeltasRouter.HandleMessage | src/main/java/io/peltas/core/alfresco/integration/PeltasRouter.java:46-72 | classification is consulted once; a failure propagates; no match fails with PeltasException when so configured and otherwise names the no-match handler; a match is a known handler whose four properties are copied into the header object (a missing header fails the copy) and the answer is "auditprocess"; the answer is never null |
| Classification.Alternatives | src/main/java/io/peltas/boot/PeltasHandlerConfigurationProperties.java:82-89 | an evaluator splits on '\|' into at least one alternative; the alternatives join back with '\|' into the evaluator and none contains '\|' |
| Classification.SplitKeyValue | src/main/java/io/peltas/boot/PeltasHandlerConfigurationProperties.java:92-94 | an alternative "k=rest" with no other '=' contains '=' and splits into exactly k and rest |
| Classification.NamedDispatch | src/main/java/io/peltas/boot/PeltasHandlerConfigurationProperties.java:92-103 | "k=NAME<>v" is decided by the evaluator that the registry resolves for NAME (or the default one), asked about key k and value v |
| Classification.DefaultDispatch | src/main/java/io/peltas/boot/PeltasHandlerConfigurationProperties.java:92-103 | "k=v" without "<>" is decided by the default evaluator, asked about k and v as written |
| Classification.BareKey | src/main/java/io/peltas/boot/PeltasHandlerConfigurationProperties.java:106-111 | an alternative without '=' holds exactly when reading it as a single-value property of the entry gives a non-null value |
| Classification.CountFromBounds | src/main/java/io/peltas/boot/PeltasHandlerConfigurationProperties.java:91-113 | the running match count of a rule's alternatives stays between its start and start plus the alternatives left; at the top every remaining alternative held, at the start none did |
| Classification.CountBounds | src/main/java/io/peltas/boot/PeltasHandlerConfigurationProperties.java:91-115 | a rule's match count is at most its rank (the number of alternatives); it equals the rank exactly when every alternative holds, and is zero exactly when none holds |
| Classification.AllHold | src/main/java/io/peltas/boot/PeltasHandlerConfigurationProperties.java:91-113 | when every remaining alternative holds, the count grows by the number of them |
| Classification.NoneHolds | src/main/java/io/peltas/boot/PeltasHandlerConfigurationProperties.java:91-113 | when no remaining alternative holds, the count does not grow |
| Classification.ScoresFromSpec | src/main/java/io/peltas/boot/PeltasHandlerConfigurationProperties.java:81-116 | scoring the rules from i on gives one count per rule, keeps the counts before i, and each later rule has an evaluator whose alternatives give its count |
| Classification.ScoresSpec | src/main/java/io/peltas/boot/PeltasHandlerConfigurationProperties.java:81-116 | when scoring succeeds every rule has an evaluator, its count is the match count of its alternatives, and no count exceeds the rule's rank |
| Classification.ScoresFromOk | src/main/java/io/peltas/boot/PeltasHandlerConfigurationProperties.java:81-116 | scoring succeeds with exactly the given counts when every rule has an evaluator whose alternatives give its count |
| Classification.LeaderFrom | src/main/java/io/peltas/boot/PeltasHandlerConfigurationProperties.java:118-127 | the best rule of the loop over the match table, when there is one, is a rule position |
| Classification.LeaderFromSpec | src/main/java/io/peltas/boot/PeltasHandlerConfigurationProperties.java:118-127 | started from a leader of a prefix, the loop ends at a leader of all counts: the first rule with the highest positive count; it ends at none only when every count is zero |
| Classification.LeaderUnique | src/main/java/io/peltas/boot/PeltasHandlerConfigurationProperties.java:118-127 | two leaders of the same counts are the same rule |
| Classification.LeaderSpec | src/main/java/io/peltas/boot/PeltasHandlerConfigurationProperties.java:118-127 | the loop picks rule i exactly when i is the first rule with the highest positive count, and picks none exactly when every count is zero |
| Classification.LeaderSkipsZeros | src/main/java/io/peltas/boot/PeltasHandlerConfigurationProperties.java:118-127 | rules with no match (absent from the match table) never change the running best |
| Classification.BestMatchIsFull | src/main/java/io/peltas/boot/PeltasHandlerConfigurationProperties.java:129-139 | a handler that is returned is the name of a rule that leads the counts and whose alternatives all matched |
| Classification.NothingMatches | src/main/java/io/peltas/boot/PeltasHandlerConfigurationProperties.java:118-139 | when no alternative of any rule holds, no handler is returned |
| Classification.StrictlyBestFullMatchWins | src/main/java/io/peltas/boot/PeltasHandlerConfigurationProperties.java:118-139 | a fully matched rule whose count beats every other rule's count is returned |
| Classification.PartialLeaderMasks | src/main/java/io/peltas/boot/PeltasHandlerConfigurationProperties.java:118-139 | when the leader matched only some of its alternatives, null is returned, even if another rule matched fully |
| Classification.MaskingScores | src/main/java/io/peltas/boot/PeltasHandlerConfigurationProperties.java:90-115 | with a="x", rules "partial" ("a\|b") and "full" ("a") each count one matching alternative, in either order |
| Classification.MaskingExample | src/main/java/io/peltas/boot/PeltasHandlerConfigurationProperties.java:118-139 | an instance of the masking: with a="x", rule "partial" ("a\|b") leads with one match and hides rule "full" ("a"), which matched fully, so null is returned |
| Classification.OrderDecidesTies | src/main/java/io/peltas/boot/PeltasHandlerConfigurationProperties.java:118-139 | the same two rules in the other order choose "full": the first of equal counts leads, so the order of the rules decides |
| Classification.BestFullMatchSpec | src/main/java/io/peltas/boot/PeltasHandlerConfigurationProperties.java:129-139 | the corrected selection returns a rule whose alternatives all matched, with more alternatives than every earlier such rule and at least as many as every later one; none exactly when no fully matched rule has an alternative |
| Classification.BestMatchAgreesWithFull | src/main/java/io/peltas/boot/PeltasHandlerConfigurationProperties.java:118-139 | whenever the selection as written returns a handler, the corrected selection returns the same one |
| Classification.MaskingCorrected | src/main/java/io/peltas/boot/PeltasHandlerConfigurationProperties.java:118-139 | on the masking instance the corrected selection returns "full" |
| Classification.Add | src/main/java/io/peltas/boot/PeltasHandlerConfigurationProperties.java:161-166 | add on a LinkedMultiValueMap appends the value to the key's list, creating the key when it is new; other keys keep their lists |
| Classification.AddThenAddAll | src/main/java/io/peltas/boot/PeltasHandlerConfigurationProperties.java:158-167 | adding one value and then a list is adding the value followed by the list |
| Classification.RecordAlternativesShaClosed | src/main/java/io/peltas/boot/PeltasHandlerConfigurationProperties.java:158-167 | recording a rule's alternatives appends them, in order, to the rule's list in the sha map |
| Classification.RecordAlternativesSha | src/main/java/io/peltas/boot/PeltasHandlerConfigurationProperties.java:158-167 | after recording, the rule's list in the sha map holds exactly its earlier entries and its remaining alternatives; other keys are untouched |
| Classification.RecordAlternativesAll | src/main/java/io/peltas/boot/PeltasHandlerConfigurationProperties.java:158-167 | after recording, an alternative lists a rule in the occurrence map exactly when it did before or the rule is the one recorded and has that alternative |
| Classification.AddMember | src/main/java/io/peltas/boot/PeltasHandlerConfigurationProperties.java:161-166 | a pair is in the multimap after add exactly when it was before or it is the added pair |
| Classification.RecordFromSha | src/main/java/io/peltas/boot/PeltasHandlerConfigurationProperties.java:150-168 | recording the rules from i on, when all have evaluators, succeeds and leaves each of them a list holding exactly its alternatives |
| Classification.RecordOwnList | src/main/java/io/peltas/boot/PeltasHandlerConfigurationProperties.java:155-167 | after recording, a rule's own list holds exactly its alternatives |
| Classification.OwnListOnly | src/main/java/io/peltas/boot/PeltasHandlerConfigurationProperties.java:162-166 | in a sha map consistent with the rules a rule's list holds only its own alternatives |
| Classification.RecordFromConsistent | src/main/java/io/peltas/boot/PeltasHandlerConfigurationProperties.java:155-168 | recording keeps the sha map consistent with the rules |
| Classification.RecordRuleConsistent | src/main/java/io/peltas/boot/PeltasHandlerConfigurationProperties.java:158-167 | recording one rule's alternatives keeps the sha map consistent with the rules |
| Classification.RecordFromKeeps | src/main/java/io/peltas/boot/PeltasHandlerConfigurationProperties.java:155-168 | recording later rules leaves the list of a rule not among them untouched |
| Classification.OccurrencesFailIffAmbiguous | src/main/java/io/peltas/boot/PeltasHandlerConfigurationProperties.java:185-210 | the configuration check throws PeltasException exactly when one rule's alternatives include all of another rule's (alternatives compared as strings, standing for their SHA-1 hashes) |
| Classification.OverlapIsAmbiguous | src/main/java/io/peltas/boot/PeltasHandlerConfigurationProperties.java:190-210 | a rule whose sha list contains another rule's whole list makes the rule set ambiguous |
| Classification.AmbiguousOverlaps | src/main/java/io/peltas/boot/PeltasHandlerConfigurationProperties.java:190-210 | an ambiguous rule set has a rule whose sha list contains another rule's whole list |
| Classification.RecordFromAll | src/main/java/io/peltas/boot/PeltasHandlerConfigurationProperties.java:153-168 | the occurrence map lists, for each alternative string, exactly the rules that have it (besides what it listed before) |
| Classification.OccurrencesListRules | src/main/java/io/peltas/boot/PeltasHandlerConfigurationProperties.java:150-188 | a successful check answers, for each alternative string, exactly the rules that use it |
| HandlerConfiguration.FilenameExtension | src/main/java/io/peltas/core/alfresco/config/PeltasHandlerConfigurationProperties.java:76 | StringUtils.getFilenameExtension: when a path has an extension, the extension has no '.' or '/', and the path is what precedes it, a '.', and the extension |
| HandlerConfiguration.ExtensionOfName | src/main/java/io/peltas/core/alfresco/config/PeltasHandlerConfigurationProperties.java:76 | the extension of "base.ext" is ext |
| HandlerConfiguration.NoDotNoExtension | src/main/java/io/peltas/core/alfresco/config/PeltasHandlerConfigurationProperties.java:76 | a file name without '.' has no extension |
| HandlerConfiguration.ResourceKey | src/main/java/io/peltas/core/alfresco/config/PeltasHandlerConfigurationProperties.java:75-81 | a resource with a non-blank extension is keyed by the file name without ".ext", and the extension (which contains no '.') names its single config entry |
| HandlerConfiguration.ResourceConfigsKeys | src/main/java/io/peltas/core/alfresco/config/PeltasHandlerConfigurationProperties.java:74-91 | a key has a config exactly when some resource file is named after it with a non-blank extension |
| HandlerConfiguration.ResourceConfigsLast | src/main/java/io/peltas/core/alfresco/config/PeltasHandlerConfigurationProperties.java:74-91 | when several files share a key, the last one wins: its config is the single entry extension := file content |
| HandlerConfiguration.ReadConfigs | src/main/java/io/peltas/core/alfresco/config/PeltasHandlerConfigurationProperties.java:73-91 | the constructor's loop over the resources builds exactly the resource configs |
| HandlerConfiguration.AsMap | src/main/java/io/peltas/core/alfresco/config/PeltasHandlerConfigurationProperties.java:99 | putAll of a handler map makes every one of its names a key, with its own properties when the names are distinct |
| HandlerConfiguration.AsMapKeys | src/main/java/io/peltas/core/alfresco/config/PeltasHandlerConfigurationProperties.java:99 | every key of the map came from one of the entries |
| HandlerConfiguration.FirstKnown | src/main/java/io/peltas/core/alfresco/config/PeltasHandlerConfigurationProperties.java:101-104 | the first handler whose name already has an evaluator: every handler before it is new, and it is a known name if there is one |
| HandlerConfiguration.FirstKnownAt | src/main/java/io/peltas/core/alfresco/config/PeltasHandlerConfigurationProperties.java:101-104 | the first known handler is at i when every earlier handler is new and the one at i is known |
| HandlerConfiguration.RulesOf | src/main/java/io/peltas/core/alfresco/config/PeltasHandlerConfigurationProperties.java:101-102 | the evaluator rules of a handler map are its names with their evaluators, in order |
| HandlerConfiguration.AddRule | src/main/java/io/peltas/core/alfresco/config/PeltasHandlerConfigurationProperties.java:127-134 | addEvaluator throws PeltasException exactly when the name already has an evaluator, and otherwise appends the (name, evaluator) rule |
| HandlerConfiguration.AddAll | src/main/java/io/peltas/core/alfresco/config/PeltasHandlerConfigurationProperties.java:101-104 | adding the evaluators of a handler map adds them in order up to the first known name, fails exactly when there is one, and keeps the configuration valid |
| HandlerConfiguration.ScoreRule | src/main/java/io/peltas/boot/PeltasHandlerConfigurationProperties.java:91-113 | the loop over one rule's alternatives computes its match count, and records the rule in the match table exactly when that count is positive |
| HandlerConfiguration.Tally | src/main/java/io/peltas/boot/PeltasHandlerConfigurationProperties.java:103-111 | one alternative adds one to the rule's match count and entry exactly when it holds |
| HandlerConfiguration.PickLeader | src/main/java/io/peltas/boot/PeltasHandlerConfigurationProperties.java:118-127 | the loop over the match table's entries, in insertion order, picks the name of the leader of all rules' counts |
| HandlerConfiguration.RecordKeepsValid | src/main/java/io/peltas/boot/PeltasHandlerConfigurationProperties.java:158-167 | recording one rule's alternatives keeps the configuration valid and adds the rule's name to the sha map |
| HandlerConfiguration.RecordRule | src/main/java/io/peltas/boot/PeltasHandlerConfigurationProperties.java:158-167 | the loop recording one rule's alternatives computes exactly the recorded occurrence and sha maps |
| HandlerConfiguration.CheckOccurrences | src/main/java/io/peltas/boot/PeltasHandlerConfigurationProperties.java:190-210 | the nested loop fails with PeltasException exactly when some rule's sha list contains another key's whole list |
| HandlerConfiguration.RecordAll | src/main/java/io/peltas/boot/PeltasHandlerConfigurationProperties.java:153-168 | the loop over all rules records exactly the occurrence and sha maps, keeps the configuration valid, and gives every rule a sha list |
| HandlerConfiguration.RecordAndCheck | src/main/java/io/peltas/boot/PeltasHandlerConfigurationProperties.java:150-188 | recording and then checking gives exactly the specified occurrences, or the failure |
| HandlerConfiguration.BestMatchHandler | src/main/java/io/peltas/boot/PeltasHandlerConfigurationProperties.java:77-140 | findFirstBestMatchHandler's loops compute exactly the specified best match, including evaluator lookup failures |
| HandlerConfiguration.HandlerConfiguration.Boot | src/main/java/io/peltas/boot/PeltasHandlerConfigurationProperties.java:53-55 | the boot copy starts with no evaluators, handlers, executions or resource configs |
| HandlerConfiguration.HandlerConfiguration.Legacy | src/main/java/io/peltas/core/alfresco/config/PeltasHandlerConfigurationProperties.java:68-95 | the legacy copy starts empty except for the resource configs read from the given files |
| HandlerConfiguration.HandlerConfiguration.AddEvaluator | src/main/java/io/peltas/core/alfresco/config/PeltasHandlerConfigurationProperties.java:127-134 | a known name throws PeltasException and changes nothing; a new name appends its rule; nothing else changes |
| HandlerConfiguration.HandlerConfiguration.SetHandler | src/main/java/io/peltas/core/alfresco/config/PeltasHandlerConfigurationProperties.java:97-105 | all handlers are stored, then their evaluators are added in order up to the first already known name, which throws PeltasException; executions and the sha map are untouched |
| HandlerConfiguration.HandlerConfiguration.FindFirstBestMatchHandler | src/main/java/io/peltas/core/alfresco/config/PeltasHandlerConfigurationProperties.java:136-199 | the handler returned is the specified best match for the entry under the current rules |
| HandlerConfiguration.HandlerConfiguration.GetForHandler | src/main/java/io/peltas/boot/PeltasHandlerConfigurationProperties.java:142-148 | returns the stored handler (or null); the boot copy sets a missing handler name to the key, the legacy copy changes nothing; the evaluator, mapper and pipeline are kept |
| HandlerConfiguration.HandlerConfiguration.GetEvaluatorConfigurationOccurencies | src/main/java/io/peltas/core/alfresco/config/PeltasHandlerConfigurationProperties.java:205-243 | returns the specified occurrence map or the ambiguity failure, and the sha map becomes the recorded one; rules, handlers and executions are unchanged |
| HandlerConfiguration.HandlerConfiguration.SetExecution | src/main/java/io/peltas/core/alfresco/config/PeltasHandlerConfigurationProperties.java:107-109 | the given executions are put over the stored ones; nothing else changes |
| HandlerConfiguration.HandlerConfiguration.GetPipelineExecution | src/main/java/io/peltas/core/alfresco/config/PeltasHandlerConfigurationProperties.java:111-125 | a stored execution is returned unchanged; otherwise a new one is stored and returned, configured with the key's resource config or none |
| HandlerConfiguration.HandlerConfiguration.AsPipelineExecutions | src/main/java/io/peltas/core/alfresco/config/PeltasHandlerConfigurationProperties.java:271-279 | a pipeline maps each of its names, in first-occurrence order, to the stored or newly created execution; stored executions are kept and only pipeline names are added |
| HandlerConfiguration.DedupMembers | src/main/java/io/peltas/core/alfresco/config/PeltasHandlerConfigurationProperties.java:271-279 | the key order of the LinkedHashMap holds exactly the pipeline's names, each once |
| HandlerConfiguration.DedupOfDistinct | src/main/java/io/peltas/core/alfresco/config/PeltasHandlerConfigurationProperties.java:271-279 | a pipeline without repeats keeps its order |
| Converters.StringToDate | src/main/java/io/peltas/boot/DefaultConvertersConfiguration.java:86-110 | with a format that has text, a source that format cannot parse is a PeltasConversionException (no fallback); without one, a source the legacy English format parses gives that date |
| Converters.Attempts | src/main/java/io/peltas/boot/DefaultConvertersConfiguration.java:87-104 | an explicit format is the only attempt; otherwise three attempts, the legacy English format first |
| Converters.StringToDateIsChain | src/main/java/io/peltas/boot/DefaultConvertersConfiguration.java:86-110 | the converter is exactly the fallback chain over its attempts: the first attempt that does not fail to parse decides |
| Converters.FirstParsedSpec | src/main/java/io/peltas/boot/DefaultConvertersConfiguration.java:92-108 | the chain gives a date exactly when some attempt parses it and every earlier attempt failed to parse |
| Converters.DateToString | src/main/java/io/peltas/boot/DefaultConvertersConfiguration.java:118-121 | formatting succeeds exactly when the current format is set and accepted, and gives the formatter's text; a missing format is a NullPointerException |
| Converters.MapToCollection | src/main/java/io/peltas/boot/DefaultConvertersConfiguration.java:129-143 | the loop gives one element per flattened entry, in order, each the {key, value} map of its entry |
| Converters.KeyValueMapSpec | src/main/java/io/peltas/boot/DefaultConvertersConfiguration.java:140-141 | each element has exactly the keys "key" and "value", "key" is the entry's key, "value" is never null and is the entry's value when that is not null |
| Converters.FormatArgs | src/main/java/io/peltas/boot/DefaultConvertersConfiguration.java:159-165 | the format arguments are the element's values at the format keys, in order (null where absent); none without format keys |
| Converters.FormattedKeys | src/main/java/io/peltas/boot/DefaultConvertersConfiguration.java:153-171 | the output succeeds exactly when the source is empty or every element formats, and then has one string per element, in order, each the formatted arguments of that element; a null format with a non-empty source is a NullPointerException |
| Converters.LineEnd | src/main/java/io/peltas/core/alfresco/config/AlfrescoDefaultConvertersConfiguration.java:41 | the end of the line that starts at j: no line terminator before it, and a terminator at it unless it is the end |
| Converters.LastClose | src/main/java/io/peltas/core/alfresco/config/AlfrescoDefaultConvertersConfiguration.java:41 | the last '}' of a range, when there is one, and none after it in the range |
| Converters.LastCloseAt | src/main/java/io/peltas/core/alfresco/config/AlfrescoDefaultConvertersConfiguration.java:41 | a '}' with none after it in the range is the one found |
| Converters.BraceGroupFrom | src/main/java/io/peltas/core/alfresco/config/AlfrescoDefaultConvertersConfiguration.java:46-47 | a group found from p opens at or after p and closes after it, inside the key |
| Converters.BraceGroupAt | src/main/java/io/peltas/core/alfresco/config/AlfrescoDefaultConvertersConfiguration.java:46-47 | the group found opens with '{' and closes at the last '}' on that line |
| Converters.BraceGroupSkips | src/main/java/io/peltas/core/alfresco/config/AlfrescoDefaultConvertersConfiguration.java:46-47 | the search passes over text without '{' |
| Converters.RenamedKey | src/main/java/io/peltas/core/alfresco/config/AlfrescoDefaultConvertersConfiguration.java:46-54 | a one-line key "pre{ns}local" with no '{' in pre and no '}' in local is renamed to "prefix:local", with ns's prefix ("null" when there is none) |
| Converters.BraceGroupOfKey | src/main/java/io/peltas/core/alfresco/config/AlfrescoDefaultConvertersConfiguration.java:46-50 | in such a key the group is the braces around ns, and the line runs to the end of the key |
| Converters.NoBraceNoName | src/main/java/io/peltas/core/alfresco/config/AlfrescoDefaultConvertersConfiguration.java:47 | a key without '{' is not renamed and so does not reach the output |
| Converters.ToPrefixedMap | src/main/java/io/peltas/core/alfresco/config/AlfrescoDefaultConvertersConfiguration.java:39-59 | the loop over the entries builds exactly the renamed map |
| Converters.PrefixedMapKeys | src/main/java/io/peltas/core/alfresco/config/AlfrescoDefaultConvertersConfiguration.java:43-57 | a name is in the output exactly when some source key renames to it |
| Converters.PrefixedMapLast | src/main/java/io/peltas/core/alfresco/config/AlfrescoDefaultConvertersConfiguration.java:43-57 | when several keys rename to the same name, the last one's value is kept, unchanged |
| Cursor.PeltasTimestamp.constructor | src/main/java/io/peltas/core/repository/database/PeltasTimestamp.java:49-53 | a new timestamp keeps its application and access time, and stores a null ref as "-" |
| Cursor.PeltasTimestamp.SetRef | src/main/java/io/peltas/core/repository/database/PeltasTimestamp.java:67-69 | setRef replaces the ref and leaves the application and access time alone |
| Cursor.ChunkContext.constructor | src/main/java/io/peltas/core/batch/PeltasProcessor.java:89 | the chunk context holds the given "peltasTimestamp" attribute |
| Cursor.CursorTxn | src/main/java/io/peltas/core/alfresco/workspace/AlfrescoWorkspaceRestReader.java:83-86 | reading the transaction of a ref fails only with ArrayIndexOutOfBounds or NumberFormatException |
| Cursor.ParseCursor | src/main/java/io/peltas/core/alfresco/workspace/AlfrescoWorkspaceRestReader.java:83-90 | the watermark's transaction is the one CursorTxn reads, a failure there is the watermark's failure, and the only failures are ArrayIndexOutOfBounds and NumberFormatException |
| Cursor.CommittedTxn | src/main/java/io/peltas/core/alfresco/workspace/AlfrescoWorkspaceRestReader.java:142-143 | reading the committed transaction fails only with ArrayIndexOutOfBounds or NumberFormatException |
| Cursor.StoredCount | src/main/java/io/peltas/core/batch/PeltasProcessor.java:113-115 | a stored count that reads is an int (Integer.valueOf); the only failures are ArrayIndexOutOfBounds and NumberFormatException |
| Cursor.SplitTwo | src/main/java/io/peltas/core/batch/PeltasProcessor.java:95 | String.split at the separator gives back both sides when neither holds its first character |
| Cursor.IntToStringNotEmpty | src/main/java/io/peltas/core/batch/PeltasProcessor.java:109-111 | a count always prints as a non-empty string |
| Cursor.AuditIdSplits | src/main/java/io/peltas/core/alfresco/workspace/AlfrescoWorkspaceRestReader.java:85 | an audit id "T;N" followed by text without ';' splits at ';' into T and the rest |
| Cursor.CursorRefSplits | src/main/java/io/peltas/core/batch/PeltasProcessor.java:99 | a ref written for an audit id splits at "___" into that id and the count |
| Cursor.ParseCursorOfCursorRef | src/main/java/io/peltas/core/alfresco/workspace/AlfrescoWorkspaceRestReader.java:83-90 | a ref written for audit record (T, N) opens the reader with watermark (T, N) |
| Cursor.CommittedTxnOfCursorRef | src/main/java/io/peltas/core/alfresco/workspace/AlfrescoWorkspaceRestReader.java:142-143 | afterChunk reads back T from a ref written for (T, N) |
| Cursor.StoredCountOfCursorRef | src/main/java/io/peltas/core/batch/PeltasProcessor.java:95-96 | the processor reads back the count it wrote |
| Cursor.PlaceholderRef | src/main/java/io/peltas/core/batch/PeltasProcessor.java:90-92 | the placeholder "1___0" has stored count 0, but has no node part for the reader's watermark (ArrayIndexOutOfBounds) |
| Cursor.DashRef | src/main/java/io/peltas/core/repository/database/PeltasTimestamp.java:51 | the default ref "-" is a NumberFormatException for both the reader's open and afterChunk |
| Processor.NextRef | src/main/java/io/peltas/core/batch/PeltasProcessor.java:95-99 | the new ref is the last entry's id, "___", and the stored count plus the counter (Integer arithmetic, wrapping); an unreadable stored count fails first, then a missing last entry (NullPointerException) |
| Processor.CursorRefOfId | src/main/java/io/peltas/core/batch/PeltasProcessor.java:95-99 | a ref written for an id without '_' splits back into the id and the count |
| Processor.NextRefCountReadBack | src/main/java/io/peltas/core/batch/PeltasProcessor.java:95-99 | the count written is the count the next chunk reads back |
| Processor.NextRefResumesAfterLastEntry | src/main/java/io/peltas/core/batch/PeltasProcessor.java:99 | after a chunk ending at audit record (T, N), the reader reopens after exactly (T, N), afterChunk commits T, and the count reads back |
| Processor.FirstChunkCount | src/main/java/io/peltas/core/batch/PeltasProcessor.java:89-99 | the first chunk, from the placeholder ref, stores the counter itself |
| Processor.CountIsCumulative | src/main/java/io/peltas/core/batch/PeltasProcessor.java:79-99 | the counter is never reset, so over a run of chunks the stored count grows by the sum of the running totals (chunks of k1 and then k2 records add 2*k1 + k2), which exceeds the records processed as soon as a second chunk follows a first that processed any |
| Processor.CountWithResetIsTotal | src/main/java/io/peltas/core/batch/PeltasProcessor.java:79-81 | with the counter reset at the start of each chunk, the stored count grows by exactly the records processed |
| Processor.NextRefStoredCount | src/main/java/io/peltas/core/batch/PeltasProcessor.java:95-99 | the read-back count with the counts named: the stored count plus the counter when that stays in int range |
| Processor.PeltasProcessor.constructor | src/main/java/io/peltas/core/batch/PeltasProcessor.java:42-53 | a new processor has counter 0 and no last audit entry |
| Processor.PeltasProcessor.OnItemProcessed | src/main/java/io/peltas/core/batch/PeltasProcessor.java:56-58 | onItemProcessed adds one to the counter (incrementAndGet, wrapping at the int range) and nothing else |
| Processor.PeltasProcessor.OnBeforeProcess | src/main/java/io/peltas/core/batch/PeltasProcessor.java:66-68 | the item becomes the last audit entry; the counter is unchanged |
| Processor.PeltasProcessor.OnBeforeChunk | src/main/java/io/peltas/core/batch/PeltasProcessor.java:71-82 | fails exactly when a stored cursor exists whose count does not read, with that exception; the counter is left as it is |
| Processor.PeltasProcessor.OnAfterWrite | src/main/java/io/peltas/core/batch/PeltasProcessor.java:88-103 | a missing timestamp is replaced by a new one for the application with the placeholder ref; its ref becomes NextRef of the old ref; the written timestamp (or, when the write answers null, the timestamp itself) goes back into the chunk context; a failure leaves the context and the ref alone |
| Nodes.CompareTxnIsOrder | src/main/java/io/peltas/alfresco/AlfrescoWorkspaceRestReader.java:121-126 | the transaction comparator is antisymmetric, answers 0 exactly for equal ids, and answers at most 0 exactly when the first id is not greater |
| Nodes.CompareTxnAsWrittenNotAntisymmetric | src/main/java/io/peltas/core/alfresco/workspace/AlfrescoWorkspaceRestReader.java:117-120 | with `==` on boxed Longs, two nodes of transaction 1000 each compare below the other, where the intended comparator answers 0 |
| Nodes.CompareTxnAsWrittenInCache | src/main/java/io/peltas/core/alfresco/workspace/AlfrescoWorkspaceRestReader.java:117-120 | for transaction ids in -128..127 the comparator as written agrees with the intended one |
| Nodes.SortByTxnSpec | src/main/java/io/peltas/alfresco/AlfrescoWorkspaceRestReader.java:118-128 | the sorted nodes are ordered by transaction, are a permutation of the input, and keep the input order within each transaction (a stable sort) |
| Nodes.StableOrderIsUnique | src/main/java/io/peltas/alfresco/AlfrescoWorkspaceRestReader.java:118-128 | two lists that are both sorted by transaction and agree on the nodes of every transaction, in order, are equal |
| Nodes.StableSortIsSortByTxn | src/main/java/io/peltas/alfresco/AlfrescoWorkspaceRestReader.java:118-128 | any stable sort by transaction, such as List.sort, gives exactly SortByTxn of the input |
| Nodes.InsertByTxnSorted | src/main/java/io/peltas/alfresco/AlfrescoWorkspaceRestReader.java:118-128 | inserting a node into a list sorted by transaction keeps it sorted |
| Nodes.InsertByTxnPermutes | src/main/java/io/peltas/alfresco/AlfrescoWorkspaceRestReader.java:118-128 | insertion adds the node and loses none |
| Nodes.InsertByTxnStable | src/main/java/io/peltas/alfresco/AlfrescoWorkspaceRestReader.java:118-128 | insertion puts the node after every node of its transaction already there |
| Nodes.SurvivesIffAfterWatermark | src/main/java/io/peltas/alfresco/AlfrescoWorkspaceRestReader.java:351-367 | a node is read exactly when it is in workspace://SpacesStore/ and comes strictly after the watermark (transaction, node id); with no watermark, exactly when it is in that store |
| Nodes.SkipAsWrittenRereadsWatermark | src/main/java/io/peltas/core/alfresco/workspace/AlfrescoWorkspaceRestReader.java:335-336 | with `==` on boxed Longs and the watermark at transaction 1000 node 5, node 3 of transaction 1000 is read again; the intended filter skips it |
| Nodes.SkipAsWrittenIsShouldSkip | src/main/java/io/peltas/core/alfresco/workspace/AlfrescoWorkspaceRestReader.java:324-340 | the filter as written is the intended filter with the node watermark dropped whenever the watermark transaction lies outside -128..127 |
| Nodes.SkipAsWrittenInCache | src/main/java/io/peltas/core/alfresco/workspace/AlfrescoWorkspaceRestReader.java:324-340 | for transaction ids in -128..127 the filter as written agrees with the intended one |
| Nodes.Survivors | src/main/java/io/peltas/alfresco/AlfrescoWorkspaceRestReader.java:197-206 | the surviving nodes are nodes of the input that are not skipped |
| Nodes.SurvivorsComplete | src/main/java/io/peltas/alfresco/AlfrescoWorkspaceRestReader.java:197-206 | every node of the input that is not skipped survives |
| Nodes.DeletedMetadataOfSurvivors | src/main/java/io/peltas/alfresco/AlfrescoWorkspaceRestReader.java:255-272 | fetchDeletedNodesMetadata gives one stub (ref, id, transaction) per surviving node of status "d", in order |
| Nodes.Ids | src/main/java/io/peltas/alfresco/AlfrescoWorkspaceRestReader.java:203-204 | the id list holds the survivors' ids, one per survivor, in order |
| Nodes.QueuesSpec | src/main/java/io/peltas/alfresco/AlfrescoWorkspaceRestReader.java:196-205 | the multi-value map has an entry for an id exactly when a survivor has that id, and it holds those survivors in order |
| Nodes.PairAllConsumed | src/main/java/io/peltas/alfresco/AlfrescoWorkspaceRestReader.java:244-248 | a complete pairing builds one record per metadata record and takes from each id's list exactly as many nodes as there are records of that id |
| Nodes.PairAllSucceedsIff | src/main/java/io/peltas/alfresco/AlfrescoWorkspaceRestReader.java:244-248 | pairing succeeds exactly when every metadata record finds an unused node of its id and converts; it fails with NullPointerException when the id has no list and IndexOutOfBoundsException when the list is exhausted |
| Nodes.PairAllFifo | src/main/java/io/peltas/alfresco/AlfrescoWorkspaceRestReader.java:245-246 | the i-th record is built from the k-th node of its id, where k is the number of earlier records with that id (remove(0) takes the nodes first-in first-out) |
| Nodes.PairedEntries | src/main/java/io/peltas/alfresco/AlfrescoWorkspaceRestReader.java:243-252 | the records of a fetch: all of them or the first failure, with the pairing's success condition and its first-in first-out order |
| Nodes.AspectEntry | src/main/java/io/peltas/alfresco/AlfrescoWorkspaceRestReader.java:285-290 | an aspect becomes the map of its prefix and local name when it holds a ':', and otherwise fails with ArrayIndexOutOfBounds |
| Nodes.AspectEntryOfQName | src/main/java/io/peltas/alfresco/AlfrescoWorkspaceRestReader.java:285-290 | an aspect "prefix:local" with no ':' in the prefix gives prefixString "prefix" and localName "local" |
| Nodes.AspectEntriesSpec | src/main/java/io/peltas/alfresco/AlfrescoWorkspaceRestReader.java:282-292 | the aspect list converts exactly when every aspect holds a ':', and then entry by entry |
| Nodes.NodeIdOf | src/main/java/io/peltas/alfresco/AlfrescoWorkspaceRestReader.java:318-322 | the node id has no '/' in it |
| Nodes.NodeIdOfSegment | src/main/java/io/peltas/alfresco/AlfrescoWorkspaceRestReader.java:318-322 | a node ref "prefix/segment" with no '/' in the segment has node id "segment" |
| Nodes.ConvertToAudit | src/main/java/io/peltas/alfresco/AlfrescoWorkspaceRestReader.java:274-331 | the record's id is "txnId;id", it has the reader's application, user "UNKNOWN" and the clock's time; it fails only with ArrayIndexOutOfBounds, from an aspect with no ':' |
| Nodes.AuditValuesSpec | src/main/java/io/peltas/alfresco/AlfrescoWorkspaceRestReader.java:294-325 | the record always has the action "NODE-" plus the action word and the aspect list; properties, type, path and nodeRef are there exactly when the metadata has them; nodeId is there exactly when the ref has a '/', and holds what follows the last one |
| Nodes.AuditKeysDistinct | src/main/java/io/peltas/alfresco/AlfrescoWorkspaceRestReader.java:297-321 | the seven value keys are different strings, so no entry overwrites another |
| Nodes.ActionCases | src/main/java/io/peltas/alfresco/AlfrescoWorkspaceRestReader.java:294-295 | the action word is DELETED exactly for status "d", UNKNOWN exactly without a status, and UPDATED otherwise |
| ItemReader.ItemBuffer.constructor | src/main/java/io/peltas/core/batch/PeltasItemReader.java:33-41 | a new reader has its application name and an empty buffer, with the counters setList gives an empty list |
| ItemReader.ItemBuffer.SetList | src/main/java/io/peltas/core/batch/PeltasItemReader.java:59-67 | the buffer becomes a copy of the list (empty for null), lastCount its size, the item count 0 and the maximum the size or 1; the counters stay consistent |
| ItemReader.ItemBuffer.DoRead | src/main/java/io/peltas/core/batch/PeltasItemReader.java:49-57 | doRead takes the head of a non-empty buffer and reports it to onRead; an empty buffer answers null and changes nothing |
| ItemReader.ItemBuffer.Read | src/main/java/io/peltas/core/batch/PeltasItemReader.java:49-57 | Spring's counting read answers the buffer's head exactly when the buffer is non-empty, removes it, reports each returned record once and keeps the counters consistent |
| ItemReader.DrainBuffer | src/main/java/io/peltas/core/batch/PeltasItemReader.java:49-57 | reading until null yields every buffered record, once and in order, and empties the buffer |
| ItemReader.DefaultRequest | src/main/java/io/peltas/core/batch/AbstractPeltasRestReader.java:83-89 | by default a REST reader sends GET with the entity "" |
| ItemReader.RestReader.constructor | src/main/java/io/peltas/core/batch/AbstractPeltasRestReader.java:39-42 | a new REST reader starts with an empty buffer for its application |
| ItemReader.RestReader.OnOpen | src/main/java/io/peltas/core/batch/AbstractPeltasRestReader.java:58-73 | onOpen hands the response, unchanged by the default onResponseReceived, to retreiveCollection and buffers its records from the start |
| ItemReader.RestReader.Read | src/main/java/io/peltas/core/batch/AbstractPeltasRestReader.java:45-51 | read answers the next buffered record; with the default doRetryRead an empty buffer answers null |
| ItemReader.RestReader.DoRetryRead | src/main/java/io/peltas/core/batch/AbstractPeltasRestReader.java:53-55 | the default doRetryRead answers null |
| WorkspaceReader.OnResponseReceived | src/main/java/io/peltas/alfresco/AlfrescoWorkspaceRestReader.java:116-131 | the fetched nodes come out ordered by transaction, as a permutation of the response that keeps the response order within each transaction |
| WorkspaceReader.SkipsWithWatermark | src/main/java/io/peltas/core/alfresco/workspace/AlfrescoWorkspaceRestReader.java:324-340 | each reader's filter is the intended filter against its node watermark: the current reader's own, the older reader's only while the transaction id is in the Long cache |
| WorkspaceReader.LegacyRereadsWatermark | src/main/java/io/peltas/core/alfresco/workspace/AlfrescoWorkspaceRestReader.java:335-336 | past the watermark (1000, 5) the older reader reads node 3 of transaction 1000 again, where the current reader skips it |
| WorkspaceReader.Retrieve | src/main/java/io/peltas/alfresco/AlfrescoWorkspaceRestReader.java:175-218 | an empty fetch or one whose nodes are all skipped gives no records and moves the window on, refreshes the max, or (older reader, max not past the start) stops retrying; a null max is a NullPointerException; records come only from fetches with surviving nodes, which keep the window |
| WorkspaceReader.RetrievedRecordIds | src/main/java/io/peltas/alfresco/AlfrescoWorkspaceRestReader.java:243-252 | a fetch that builds records builds one per metadata record (the live ones, then the deleted stubs), each with the id "txnId;id" of its metadata and the reader's application |
| WorkspaceReader.RefreshWithinBound | src/main/java/io/peltas/alfresco/AlfrescoWorkspaceRestReader.java:369-382 | refreshing the max (the answer, or on a failed query the max already known) never raises the furthest transaction the window can reach, and the known max lies within it |
| WorkspaceReader.GapShrinks | src/main/java/io/peltas/alfresco/AlfrescoWorkspaceRestReader.java:182-185 | moving the window on by six while it is within the bound brings it strictly closer to the bound |
| WorkspaceReader.RetrieveWithinBound | src/main/java/io/peltas/alfresco/AlfrescoWorkspaceRestReader.java:182-189 | the window is moved on only while its start is within the bound, and a refresh does not raise the bound |
| WorkspaceReader.WorkspaceReader.constructor | src/main/java/io/peltas/alfresco/AlfrescoWorkspaceRestReader.java:71-76 | a new reader has counter 0, no window, no known max, retry on, no watermark and no cursor record |
| WorkspaceReader.WorkspaceReader.NextWindow | src/main/java/io/peltas/alfresco/AlfrescoWorkspaceRestReader.java:91-92 | incrementAndGet then addAndGet(5): the window becomes the six transactions after the counter, and the counter its end |
| WorkspaceReader.WorkspaceReader.AfterPropertiesSet | src/main/java/io/peltas/alfresco/AlfrescoWorkspaceRestReader.java:79-95 | with no stored cursor the window starts after the counter; with a cursor "T;N..." the watermark is (T, N) and the window T..T+5; an unreadable cursor fails with its parse error and leaves the window; the current reader then asks for the max |
| WorkspaceReader.WorkspaceReader.ReadCursor | src/main/java/io/peltas/alfresco/AlfrescoWorkspaceRestReader.java:82-89 | the counter is set to the cursor's transaction minus one and the watermark to its transaction and node; each parse failure leaves what comes after it unchanged |
| WorkspaceReader.WorkspaceReader.BeforeChunk | src/main/java/io/peltas/alfresco/AlfrescoWorkspaceRestReader.java:138-141 | the chunk context receives the reader's cursor record |
| WorkspaceReader.WorkspaceReader.AfterChunk | src/main/java/io/peltas/alfresco/AlfrescoWorkspaceRestReader.java:144-157 | the cursor record comes back from the chunk context and the window moves to the six transactions after its committed transaction; without a record the current reader does nothing and the older one fails with NullPointerException; an unreadable ref fails and leaves the window |
| WorkspaceReader.WorkspaceReader.FetchDeletedNodesMetadata | src/main/java/io/peltas/alfresco/AlfrescoWorkspaceRestReader.java:255-272 | the loop builds the stubs of the surviving deleted nodes, each reader with its own filter (the older one with `==` on boxed Longs) |
| WorkspaceReader.WorkspaceReader.IndexSurvivors | src/main/java/io/peltas/alfresco/AlfrescoWorkspaceRestReader.java:195-206 | the loop builds the survivors' id list and their multi-value map by id, each reader with its own filter |
| WorkspaceReader.WorkspaceReader.PairWithNodes | src/main/java/io/peltas/alfresco/AlfrescoWorkspaceRestReader.java:243-248 | the loop builds the records of the pairing, or its first failure |
| WorkspaceReader.WorkspaceReader.RetreiveCollection | src/main/java/io/peltas/alfresco/AlfrescoWorkspaceRestReader.java:175-253 | retreiveCollection answers the records of Retrieve, sets retry unless the move is to stop, moves the window or refreshes the max as Retrieve says, and leaves the watermark alone |
| WorkspaceReader.WorkspaceReader.DoOpen | src/main/java/io/peltas/alfresco/AlfrescoWorkspaceRestReader.java:98-108 | doOpen records the window start, fetches that window (the older reader first asks for the max, and fails when it cannot), buffers the records of Retrieve and never moves the window away from the bound |
| WorkspaceReader.WorkspaceReader.OpenWindow | src/main/java/io/peltas/core/alfresco/workspace/AlfrescoWorkspaceRestReader.java:102-108 | the shared part of onOpen: the window start is recorded, the window's nodes are fetched, sorted and retrieved, and the records fill the buffer |
| WorkspaceReader.WorkspaceReader.Read | src/main/java/io/peltas/alfresco/AlfrescoWorkspaceRestReader.java:134-136 | read answers the buffer's head while there is one; otherwise it retries; a null answer means retrying is off or the window did not move; the window only moves forward; each returned record is delivered once |
| WorkspaceReader.WorkspaceReader.DoRetryRead | src/main/java/io/peltas/alfresco/AlfrescoWorkspaceRestReader.java:160-172 | doRetryRead answers null without retry or when the window has not moved since the last open; otherwise it reopens and reads, and terminates because the window approaches the bound |
| Transform.Convert | src/main/java/io/peltas/core/alfresco/integration/PeltasHandler.java:59-138 | the conversion service fails only with a conversion failure; a string becomes a date exactly when the date parsing accepts it, a blank string becomes an empty map, and a map becomes the key/value list of its flattened entries |
| Transform.StoreValue | src/main/java/io/peltas/core/alfresco/integration/PeltasHandler.java:224-259 | convertValue stores null for a null value and the value itself when the property has no type; a converted value is stored unless it is null; no other key changes and no key besides the property's is added |
| Transform.Combined | src/main/java/io/peltas/core/alfresco/integration/PeltasHandler.java:205-222 | no values give null; with a format and a String type the values go through String.format (a bad format is IllegalArgument); otherwise exactly one value is taken and more are IllegalArgument; a format with no type is a NullPointerException |
| Transform.ItemValue | src/main/java/io/peltas/core/alfresco/integration/PeltasHandler.java:186-190 | a quoted item is read as its text, trimmed; any other item is looked up in the record |
| Transform.LiteralItem | src/main/java/io/peltas/core/alfresco/integration/PeltasHandler.java:186-187 | a data item in single or double quotes gives its inner text, trimmed |
| Transform.GatherStep | src/main/java/io/peltas/core/alfresco/integration/PeltasHandler.java:177-195 | one data item adds at most one value and never a null, and marks the property for pass 2 exactly when it is a "prop:" reference |
| Transform.DataValues | src/main/java/io/peltas/core/alfresco/integration/PeltasHandler.java:176-195 | the gathered values hold no null and are at most one per data item |
| Transform.DataValuesDeferred | src/main/java/io/peltas/core/alfresco/integration/PeltasHandler.java:181-184 | a property is deferred to pass 2 exactly when one of its data items is a "prop:" reference |
| Transform.CollectDataValues | src/main/java/io/peltas/core/alfresco/integration/PeltasHandler.java:176-195 | the data loop gathers what DataValues describes, stopping at the first failed lookup |
| Transform.FirstPassStep | src/main/java/io/peltas/core/alfresco/integration/PeltasHandler.java:171-198 | one property writes at most its own key and is deferred at most once |
| Transform.Pass1Bounds | src/main/java/io/peltas/core/alfresco/integration/PeltasHandler.java:165-198 | pass 1 writes only the names of configured properties and defers only configured properties |
| Transform.Reference | src/main/java/io/peltas/core/alfresco/integration/PeltasHandler.java:275-283 | a "prop:" reference without '@' reads the value pass 1 stored under the name |
| Transform.MemberValues | src/main/java/io/peltas/core/alfresco/integration/PeltasHandler.java:293-299 | each reference of a multi-item property yields one value, in order, read from the map it names |
| Transform.Resolve | src/main/java/io/peltas/core/alfresco/integration/PeltasHandler.java:266-302 | a deferred property with no data fails with RuntimeException; a single reference to null, or a single reference when the property has no type, leaves the values alone; only the property's own key may be added |
| Transform.Pass2 | src/main/java/io/peltas/core/alfresco/integration/PeltasHandler.java:261-305 | pass 2 writes only the names the values already had or the deferred properties' names |
| Transform.ProcessWritesProperties | src/main/java/io/peltas/core/alfresco/integration/PeltasHandler.java:165-203 | processing a record writes values only under the names of the handler's properties |
| Transform.LiteralProperty | src/main/java/io/peltas/core/alfresco/integration/PeltasHandler.java:171-198 | a property whose one data item is a quoted literal maps to the trimmed inner text |
| Transform.Pass1Stores | src/main/java/io/peltas/core/alfresco/integration/PeltasHandler.java:165-198 | with distinct names, pass 1 leaves under a property's name what that property stores on its own: its items' values combined and converted |
| Transform.Pass1DefersReferences | src/main/java/io/peltas/core/alfresco/integration/PeltasHandler.java:171-198 | every property pass 1 sends to pass 2 has items, and gathering them met a reference |
| Transform.Pass1KeepsAfter | src/main/java/io/peltas/core/alfresco/integration/PeltasHandler.java:165-198 | the properties after the last one with a given name leave the value under that name as they found it |
| Transform.Pass2Resolves | src/main/java/io/peltas/core/alfresco/integration/PeltasHandler.java:261-305 | pass 2 leaves under a deferred property's name what Resolve gives it against the values left by the deferred properties before it |
| Transform.ProcessPlainProperty | src/main/java/io/peltas/core/alfresco/integration/PeltasHandler.java:165-203 | a property none of whose items is a "prop:" reference ends with its items' values combined and converted by pass 1; pass 2 leaves it alone |
| Transform.ProcessDeferredProperty | src/main/java/io/peltas/core/alfresco/integration/PeltasHandler.java:165-305 | a deferred property ends with what Resolve gives it against the pass 1 values as the earlier deferred properties left them; the first deferred one resolves against the pass 1 values themselves |
| Transform.CollectMemberValues | src/main/java/io/peltas/core/alfresco/integration/PeltasHandler.java:293-299 | the reference loop gathers what MemberValues describes |
| Transform.PostProcessProperties | src/main/java/io/peltas/core/alfresco/integration/PeltasHandler.java:261-305 | the pass 2 loop computes Pass2 |
| Transform.ResolveDeferred | src/main/java/io/peltas/core/alfresco/integration/PeltasHandler.java:266-302 | resolving one deferred property computes Resolve |
| Transform.FirstPassOf | src/main/java/io/peltas/core/alfresco/integration/PeltasHandler.java:171-198 | the pass 1 body for one property computes FirstPassStep |
| Transform.ProcessProperties | src/main/java/io/peltas/core/alfresco/integration/PeltasHandler.java:165-203 | processProperties computes Process: pass 1 over all properties, then pass 2 over the deferred ones when there are any |
| Transform.PropertyMap | src/main/java/io/peltas/core/alfresco/integration/PeltasHandler.java:153 | the data holder's property map has exactly the configured names |
| Transform.PeltasHandler.constructor | src/main/java/io/peltas/core/alfresco/integration/PeltasHandler.java:59-139 | a handler holds its conversion services |
| Transform.PeltasHandler.Handle | src/main/java/io/peltas/core/alfresco/integration/PeltasHandler.java:142-163 | a message without a handler configuration fails with NullPointerException; otherwise handle fails exactly when processing fails, always as a PeltasConversionException, and else answers a new data holder with the record, the property map, the processed values, the configuration and no additional data |
| Writers.CollectionValues | src/main/java/io/peltas/core/batch/PeltasExecutionItemWriter.java:66-68 | a collection value gives its elements and null gives none; any other value fails the cast with ClassCastException, and only then |
| Writers.ItemCalls | src/main/java/io/peltas/core/batch/PeltasExecutionItemWriter.java:52-55 | one item-execution call per execution key, in list order |
| Writers.CollectionCalls | src/main/java/io/peltas/core/batch/PeltasExecutionItemWriter.java:73-77 | one collection-execution call per key of the collection's executions, in order |
| Writers.Write | src/main/java/io/peltas/core/batch/PeltasExecutionItemWriter.java:43-85 | write makes exactly the calls of WriteTrace and ends with its status |
| Writers.WriteItems | src/main/java/io/peltas/core/batch/PeltasItemWriter.java:28-66 | the loop over the items makes the calls of ItemsTrace |
| Writers.WriteItem | src/main/java/io/peltas/core/batch/PeltasExecutionItemWriter.java:47-82 | the body for one item makes the calls of ItemTrace |
| Writers.WriteCollections | src/main/java/io/peltas/core/batch/PeltasExecutionItemWriter.java:57-81 | the loop over an item's collections makes the calls of CollectionsTrace and stops at the first collection that fails the cast |
| Writers.WriteCollection | src/main/java/io/peltas/core/batch/PeltasExecutionItemWriter.java:68-78 | the loop over a collection's elements makes, per element, its parameters and then the collection's executions |
| Writers.ItemsTraceStep | src/main/java/io/peltas/core/batch/PeltasExecutionItemWriter.java:47-82 | after items that all succeeded, the next item's calls follow theirs |
| Writers.ItemsTraceStops | src/main/java/io/peltas/core/batch/PeltasExecutionItemWriter.java:47-82 | once an item fails, no later item is written |
| Writers.CollectionsTraceStops | src/main/java/io/peltas/core/batch/PeltasExecutionItemWriter.java:60-80 | once a collection value fails the cast, no later collection is written |
| Writers.ExecutionsOfElements | src/main/java/io/peltas/core/batch/PeltasExecutionItemWriter.java:68-78 | a collection of v elements whose pipeline has k executions makes v times k executions |
| Writers.ExecutionsOfCollections | src/main/java/io/peltas/core/batch/PeltasExecutionItemWriter.java:57-81 | the collections of an item make as many executions as their fan-out, the sum of elements times executions |
| Writers.ItemExecutionCount | src/main/java/io/peltas/core/batch/PeltasExecutionItemWriter.java:47-82 | an item that is written completely makes its own executions plus the fan-out of its collections |
| Writers.ItemTraceShape | src/main/java/io/peltas/core/batch/PeltasExecutionItemWriter.java:47-82 | an item's calls start with its parameters, created once, its item-level executions come before its collection-level ones, and every call is for that item |
| Writers.ItemsInOrder | src/main/java/io/peltas/core/batch/PeltasExecutionItemWriter.java:47 | the items are written in list order, each completely before the next |
| Writers.WriteHooks | src/main/java/io/peltas/core/batch/PeltasExecutionItemWriter.java:45-84 | with hooks, beforeExecution is called first and once, and afterExecution last and only when every item succeeded; without hooks only item calls are made |
| Jdbc.ItemParameters | src/main/java/io/peltas/core/repository/database/PeltasJdbcWriter.java:146-163 | the item's parameters are the built values with audit.id, audit.user and audit.time on top; a record missing any of the three fails with NullPointerException (the immutable map refuses null), and only then |
| Jdbc.QualifiedInjective | src/main/java/io/peltas/core/repository/database/PeltasJdbcWriter.java:138 | two result columns qualified by the same execution key give the same name only when they are the same column |
| Jdbc.Qualified | src/main/java/io/peltas/core/repository/database/PeltasJdbcWriter.java:136-139 | every result column c appears as "key.c" with its value, and nothing else appears |
| Jdbc.AddSources | src/main/java/io/peltas/core/repository/database/PeltasJdbcWriter.java:133-144 | addSources adds each result column as "key.c" with its value and keeps every other parameter; an empty result changes nothing |
| Jdbc.AddElement | src/main/java/io/peltas/core/repository/database/PeltasJdbcWriter.java:105-121 | an element's parameters keep the item's; a map element adds its flattened entries over them, any other element is added under the collection's key |
| Jdbc.ItemKeys | src/main/java/io/peltas/core/batch/PeltasJdbcBatchWriter.java:62-65 | the template writer runs the item executions as listed; the batch writer runs them as the LinkedHashMap of asPipelineExecutions orders them, each key once at its first place; a null handler, pipeline or list fails in both |
| Jdbc.ChainedStep | src/main/java/io/peltas/core/repository/database/PeltasJdbcWriter.java:88-96 | after a chain of queries that went through, the next execution is queried with the parameters the last result was added to |
| Jdbc.ExecutionsRunChained | src/main/java/io/peltas/core/repository/database/PeltasJdbcWriter.java:88-96 | the executions are queried in order, each with its own sql, the first on the item's parameters and each later one on the parameters its predecessor's result was added to; a run ends early exactly at a failed query, with that query's exception |
| Jdbc.ChainedLonger | src/main/java/io/peltas/core/repository/database/PeltasJdbcWriter.java:88-96 | a chain over some executions is still a chain when one more execution follows |
| Jdbc.ElementsRunCount | src/main/java/io/peltas/core/repository/database/PeltasJdbcWriter.java:68-78 | a collection of v elements run completely with k executions sends v times k queries |
| Jdbc.ElementsRunParams | src/main/java/io/peltas/core/batch/PeltasJdbcBatchWriter.java:93-106 | the template writer's item parameters are never changed by a collection; the batch writer's shared copy only gains keys |
| Jdbc.ElementsRunPrefix | src/main/java/io/peltas/core/batch/PeltasJdbcBatchWriter.java:96-119 | the queries of the first j elements are the start of the collection's queries |
| Jdbc.ElementStart | src/main/java/io/peltas/core/batch/PeltasJdbcBatchWriter.java:96-114 | the first query of element j sees the element added to the item's parameters (template writer) or to the shared copy as the earlier elements left it (batch writer) |
| Jdbc.CollectionsRunPrefix | src/main/java/io/peltas/core/batch/PeltasJdbcBatchWriter.java:82-121 | the queries of the first m collections are the start of the item's collection queries |
| Jdbc.CollectionStart | src/main/java/io/peltas/core/batch/PeltasJdbcBatchWriter.java:82-121 | collection m's queries follow directly the queries of the collections before it, and each starts from the item's parameters |
| Jdbc.CollectionsRunCount | src/main/java/io/peltas/core/batch/PeltasJdbcBatchWriter.java:82-121 | an item's collections, run completely, send as many queries as their fan-out |
| Jdbc.ItemQueryCount | src/main/java/io/peltas/core/batch/PeltasJdbcBatchWriter.java:57-124 | a completed item sends one query per item execution, chained from its parameters, and then its collections' fan-out |
| Jdbc.BatchKeysOnce | src/main/java/io/peltas/core/batch/PeltasJdbcBatchWriter.java:62-65 | the batch writer runs each item execution key once and runs exactly the keys of the list |
| Jdbc.ItemsRunStops | src/main/java/io/peltas/core/batch/PeltasJdbcBatchWriter.java:59 | an exception in an item ends the write; later items send nothing |
| Jdbc.CollectionsRunStops | src/main/java/io/peltas/core/batch/PeltasJdbcBatchWriter.java:83-89 | a collection value that is not a collection ends the item; later collections send nothing |
| Jdbc.ElementsRunStops | src/main/java/io/peltas/core/batch/PeltasJdbcBatchWriter.java:96-114 | a failed query in an element ends the collection |
| Jdbc.ExecutionsRunStops | src/main/java/io/peltas/core/batch/PeltasJdbcBatchWriter.java:65-71 | a failed query ends the item's executions |
| Jdbc.SqlKey | src/main/java/io/peltas/core/repository/database/PeltasJdbcWriter.java:60-66 | a loaded file's key is its name without the ".sql" extension |
| Jdbc.SqlKeyIsExtension | src/main/java/io/peltas/core/repository/database/PeltasJdbcWriter.java:61-64 | a file is loaded exactly when StringUtils.getFilenameExtension reads its extension as "sql" |
| Jdbc.ExtensionIsSuffix | src/main/java/io/peltas/core/repository/database/PeltasJdbcWriter.java:61-66 | a name with extension "sql" ends in ".sql" |
| Jdbc.SqlKeyOfName | src/main/java/io/peltas/core/repository/database/PeltasJdbcWriter.java:66 | the file "key.sql" is loaded under "key" |
| Jdbc.NamedSqlIsName | src/main/java/io/peltas/core/repository/database/PeltasJdbcWriter.java:60-66 | a resource is loaded under a key exactly when its file name is that key plus ".sql" |
| Jdbc.SqlResourcesKeys | src/main/java/io/peltas/core/repository/database/PeltasJdbcWriter.java:59-76 | the loaded map has a key exactly when some resource is named key plus ".sql" |
| Jdbc.LoadKey | src/main/java/io/peltas/core/repository/database/PeltasJdbcWriter.java:73 | loading one resource sets its own key to its content and leaves every other key as it was |
| Jdbc.SqlResourcesLast | src/main/java/io/peltas/core/repository/database/PeltasJdbcWriter.java:59-76 | when several files share a key, the last of them wins |
| JdbcWriters.ParameterSource.constructor | src/main/java/io/peltas/core/repository/database/PeltasJdbcWriter.java:107 | a new parameter source holds a copy of the given values |
| JdbcWriters.Execute | src/main/java/io/peltas/core/repository/database/PeltasJdbcWriter.java:88-96 | queryForMap sees the parameters as they are; its result columns are then added to the same parameters as "key.c"; a failed query leaves them unchanged and is the call's exception |
| JdbcWriters.ExecutionsRunNext | src/main/java/io/peltas/core/repository/database/PeltasJdbcWriter.java:88-96 | the run of the first n+1 executions is the run of the first n followed by the one query of execution n on the parameters they left |
| JdbcWriters.ElementsRunStep | src/main/java/io/peltas/core/batch/PeltasJdbcBatchWriter.java:96-119 | the next element's queries follow the earlier elements' ones |
| JdbcWriters.CollectionsRunStep | src/main/java/io/peltas/core/batch/PeltasJdbcBatchWriter.java:83-120 | the next collection's queries follow the earlier collections' ones, or its value fails the cast |
| JdbcWriters.CollectionsRunNext | src/main/java/io/peltas/core/batch/PeltasJdbcBatchWriter.java:83-120 | the collection loop's next step, with the collection's queries and status named |
| JdbcWriters.ItemsRunStep | src/main/java/io/peltas/core/batch/PeltasJdbcBatchWriter.java:59-123 | the next item's queries follow the earlier items' ones |
| JdbcWriters.JdbcWriter.constructor | src/main/java/io/peltas/core/repository/database/PeltasJdbcWriter.java:53-80 | the writer's sql map is the map of the ".sql" resources by name, the last file of a name winning |
| JdbcWriters.JdbcWriter.SqlOf | src/main/java/io/peltas/core/repository/database/PeltasJdbcWriter.java:89 | the sql of an execution is its file's content, or null when there is no file of that name |
| JdbcWriters.JdbcWriter.AsWriter | src/main/java/io/peltas/core/repository/database/PeltasJdbcWriter.java:88-131 | the template writer as the runs see it: sql from the resource map, a fresh parameter copy per collection element |
| JdbcWriters.JdbcWriter.CreateItemInputParameters | src/main/java/io/peltas/core/repository/database/PeltasJdbcWriter.java:83-85 | the item parameters are a new source holding ItemParameters, or its NullPointerException |
| JdbcWriters.JdbcWriter.ItemExecution | src/main/java/io/peltas/core/repository/database/PeltasJdbcWriter.java:88-96 | itemExecution queries the execution's sql on the parameters and adds the result columns to them |
| JdbcWriters.JdbcWriter.CreateCollectionItemInputParameters | src/main/java/io/peltas/core/repository/database/PeltasJdbcWriter.java:105-121 | each element gets a new source: a copy of the item parameters with the element added |
| JdbcWriters.JdbcWriter.CollectionExecution | src/main/java/io/peltas/core/repository/database/PeltasJdbcWriter.java:124-131 | collectionExecution queries the execution's sql on the element's parameters and adds the result columns to them |
| JdbcWriters.JdbcWriter.ExecutionHook | src/main/java/io/peltas/core/repository/database/PeltasJdbcWriter.java:88-131 | one execution call of the template is one step of ExecutionsRun |
| JdbcWriters.JdbcWriter.RunExecutions | src/main/java/io/peltas/core/batch/PeltasExecutionItemWriter.java:52-55 | the template's execution loop computes ExecutionsRun on the parameters it is given, in place |
| JdbcWriters.JdbcWriter.WriteElements | src/main/java/io/peltas/core/batch/PeltasExecutionItemWriter.java:68-78 | the template's element loop computes ElementsRun, each element on a fresh copy, the item parameters untouched |
| JdbcWriters.JdbcWriter.WriteCollections | src/main/java/io/peltas/core/batch/PeltasExecutionItemWriter.java:57-81 | the template's collection loop computes CollectionsRun |
| JdbcWriters.JdbcWriter.WriteItem | src/main/java/io/peltas/core/batch/PeltasExecutionItemWriter.java:47-82 | the template's body for one item computes ItemRun |
| JdbcWriters.JdbcWriter.Write | src/main/java/io/peltas/core/batch/PeltasExecutionItemWriter.java:43-85 | the template writer sends exactly the queries of ItemsRun and ends with its status |
| JdbcWriters.ExtendsConfig | src/main/java/io/peltas/core/alfresco/config/PeltasHandlerConfigurationProperties.java:111-125 | every execution the cache holds has the configuration getPipelineExecution gives it from the cache at the start |
| JdbcWriters.ExtendsTrans | src/main/java/io/peltas/core/alfresco/config/PeltasHandlerConfigurationProperties.java:111-125 | a cache that grew twice grew once: what was cached stays and every new entry holds its resource's configuration |
| JdbcWriters.JdbcBatchWriter.constructor | src/main/java/io/peltas/core/batch/PeltasJdbcBatchWriter.java:51-54 | the batch writer holds the handler configuration and the database |
| JdbcWriters.JdbcBatchWriter.AsWriter | src/main/java/io/peltas/core/batch/PeltasJdbcBatchWriter.java:69-111 | the batch writer as the runs see it: the sql is the "sql" entry of the execution's configuration as getPipelineExecution gives it, one parameter copy per collection |
| JdbcWriters.JdbcBatchWriter.BatchExecution | src/main/java/io/peltas/core/batch/PeltasJdbcBatchWriter.java:66-71 | one item execution: queryForMap on the execution's sql, then addSources |
| JdbcWriters.JdbcBatchWriter.RunItemExecutions | src/main/java/io/peltas/core/batch/PeltasJdbcBatchWriter.java:64-76 | the loop over the LinkedHashMap computes ExecutionsRun over its keys |
| JdbcWriters.JdbcBatchWriter.CollectionExecution | src/main/java/io/peltas/core/batch/PeltasJdbcBatchWriter.java:109-114 | one collection execution looks the execution up through getPipelineExecution, which may cache a new entry, then queries and adds the result |
| JdbcWriters.JdbcBatchWriter.RunCollectionExecutions | src/main/java/io/peltas/core/batch/PeltasJdbcBatchWriter.java:108-118 | the executions of one element compute ExecutionsRun on the shared copy |
| JdbcWriters.JdbcBatchWriter.WriteElements | src/main/java/io/peltas/core/batch/PeltasJdbcBatchWriter.java:96-119 | the element loop computes ElementsRun on one copy shared by the collection |
| JdbcWriters.JdbcBatchWriter.WriteCollection | src/main/java/io/peltas/core/batch/PeltasJdbcBatchWriter.java:84-120 | one collection fails the cast or runs its elements from a copy of the item parameters |
| JdbcWriters.JdbcBatchWriter.WriteCollections | src/main/java/io/peltas/core/batch/PeltasJdbcBatchWriter.java:78-122 | the collection loop computes CollectionsRun |
| JdbcWriters.JdbcBatchWriter.PipelineExecutions | src/main/java/io/peltas/core/alfresco/config/PeltasHandlerConfigurationProperties.java:271-279 | asPipelineExecutions orders the keys as they first appear, each once, and gives each the configuration getPipelineExecution gives it; the cache only grows and the handlers, rules and checksum stay |
| JdbcWriters.JdbcBatchWriter.WriteItem | src/main/java/io/peltas/core/batch/PeltasJdbcBatchWriter.java:59-123 | the body for one item computes ItemRun, with each item execution run once |
| JdbcWriters.JdbcBatchWriter.Write | src/main/java/io/peltas/core/batch/PeltasJdbcBatchWriter.java:57-124 | the batch writer sends exactly the queries of ItemsRun under the execution cache it started with, leaves the handlers, rules and checksum alone, and only adds executions built from their resources to the cache |

## Left out

- The network, the database and the cursor store: the REST exchanges (nodes of a window, node metadata, the max transaction), JDBC `queryForMap` and the JPA `readTx`/`writeTx` are parameters of the operations that call them.
- `SimpleDateFormat` parsing and formatting, `String.format`, `ObjectToMapTransformer` key flattening, the conversion service's other conversions, the namespace prefix lookup and the evaluators other than the contains evaluator (`EqualsExpressionEvaluator` is not part of this model) are function parameters.
- `DigestUtils.sha1Hex` is taken to be injective: alternatives are compared as strings instead of by their SHA-1 hashes.
- The thread-local format context (`PeltasFormatUtil`, `PeltasHandler.CURRENT_FORMAT`) is replaced by the format passed explicitly.
- Logging, Spring and Spring Batch wiring, scheduling, the messaging runtime, HTTP, TLS and authentication are outside the core.
- Concurrency: the `AtomicInteger` counters are plain fields, as every component is used by one thread.
- Transaction and node ids are unbounded integers (no `Long` overflow); the `Integer` counts of the processor wrap at 32 bits.
- Classification.BestMatch: the rules are taken in registration order, while the source iterates `evaluatorsMap`, a `HashMap`, in bucket order; when two rules tie on the highest count the order decides (Classification.OrderDecidesTies); Classification.StrictlyBestFullMatchWins holds in every order.
- HandlerConfiguration: the same registration order stands for the `HashMap` order of `evaluatorsMap` and `handlerConfigurationMap` in both copies of the class.
- Transform.Process: the properties of a mapper, and the deferred properties of pass 2 (`postProcessProps`, a `HashMap`), are taken in a given order; when one deferred property refers to another the result depends on that order (Transform.ProcessDeferredProperty states what each one resolves against).
- Nodes.SortByTxn for the older reader: the model sorts stably by transaction value; `List.sort` with that reader's comparator, which compares boxed `Long`s with `==`, may order the nodes of one transaction differently or throw `IllegalArgumentException` for long lists, and that outcome is not modelled.
- WorkspaceReader.WorkspaceReader.DoOpen, WorkspaceReader.WorkspaceReader.Read, WorkspaceReader.WorkspaceReader.DoRetryRead and WorkspaceReader.WorkspaceReader.OpenWindow: for the older reader they require a repository whose node answers lie within the asked window and below the max transaction it reports (`Consistent`); this is an assumption for termination only, since without it the older reader's `read`/`doRetryRead` recursion need not end.
- Text.ReplaceFirst: the pattern is replaced literally; Java's `replaceFirst` reads `expression + "<>"` as a regular expression (core.alfresco.config copy line 159, boot copy line 100), which differs when the expression name holds regex metacharacters.
- Evaluators.IsValueMapped: the contains evaluator reads the record through PropertyLookup.MultiValue (`getMappedMultiValueProperty`); the source calls `PeltasEntryHandler`, which is not part of this model.
- Classification.BareKey / Classification.AlternativeMatches: for the boot copy the bare key is read through PropertyLookup.SingleValue (`PeltasHandler.getMappedSingleValueProperty`, as the older copy at core/alfresco/config/PeltasHandlerConfigurationProperties.java:165-170 does); the boot copy calls `PeltasEntryHandler.getMappedSingleValueProperty`, which is not part of this model.
- WorkspaceReader.WorkspaceReader.RetreiveCollection, Writers.WriteItem and WorkspaceReader.WorkspaceReader.DoOpen: three minor null paths are not modelled: a response whose `getNodes()` is null in `retreiveCollection`, the trace logging that calls `item.getAuditEntry().getId()` before writing, and the older reader's max-transaction query, where a failed query and a null answer are both the `None` of `Remote.maxTxnId`.
- Text.ParseInteger: accepts ASCII digits only; `Integer.valueOf` and `Long.valueOf` also accept other Unicode decimal digits.
- JdbcWriters.ConfigSql: `PipelineExecution.getConfigValue` is not part of this model; it is taken to answer the configuration's "sql" entry, and null when there is no configuration.
- HandlerModel.PipelineCollection: its executions list is never null; the batch writer's loop over a null list (`PeltasJdbcBatchWriter.java` lines 87 and 108) would throw `NullPointerException`, which is not modelled.
- Converters.PrefixedMap: the `PrefixStringHashMap` the converter fills is modelled as a plain map; its own lookup behaviour is not part of this model.
- The tests are not modelled; `StringToMapUtilTest` lines 72-74 and 89-91 expect behaviour the parser does not have.

## Findings

| source | as written | input that shows it | evidently intended | confidence | as-written member | corrected member |
|---|---|---|---|---|---|---|
| src/main/java/io/peltas/core/alfresco/workspace/AlfrescoWorkspaceRestReader.java:117-120 | the sort comparator tests `n1.getTxnId() == n2.getTxnId()` on boxed `Long`s, so equal ids outside -128..127 compare as different (the `Long` type of `getTxnId()` is inferred from `AlfrescoNodeMetadata` and the newer reader's `.equals`; `AlfrescoNode` is not part of this model) | two nodes of transaction 1000: each compares below the other | compare the ids by value, as the current reader does | medium; not executed | Nodes.CompareTxnAsWrittenNotAntisymmetric | Nodes.CompareTxnIsOrder |
| src/main/java/io/peltas/core/alfresco/workspace/AlfrescoWorkspaceRestReader.java:335-336 | the skip filter tests the watermark transaction with `==` on boxed `Long`s, so the node watermark is ignored outside -128..127 (the `Long` type is inferred as in the row above) | watermark (1000, 5), node 3 of transaction 1000: the older reader reads it again | skip every node at or before the watermark (transaction, node id) | medium; not executed | WorkspaceReader.LegacyRereadsWatermark | Nodes.SurvivesIffAfterWatermark |
| src/main/java/io/peltas/core/batch/PeltasProcessor.java:79-81 | `if (counter.get() == 0) counter.set(0);` never resets a counter that is not already 0 | stored count 0, two chunks of one record each: the stored count becomes 3, not 2 | reset the counter at the start of every chunk, so the stored count is the number of records processed | medium; not executed | Processor.CountIsCumulative | Processor.CountWithResetIsTotal |
| src/main/java/io/peltas/boot/PeltasHandlerConfigurationProperties.java:118-139 | the rule with the strictly highest match count is returned only when it matched fully; otherwise null | a="x", rules "partial" (a\|b) then "full" (a): null, though "full" matched fully | the fully matched rule with the most alternatives | low; not executed | Classification.MaskingExample | Classification.BestFullMatchSpec |

The older reader uses the filter as written (WorkspaceReader.Skips), and its
sort is the stable sort by value described under "## Left out". The
processor class and the router keep the counter and the selection as the
source writes them; the corrected definitions stand beside them, and
Classification.BestMatchAgreesWithFull shows the two selections agree
whenever the source's selection returns a handler.
