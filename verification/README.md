# Firebird code generator — a Dafny model of its core

Firebird asks an LLM to write a program. It sends a prompt, together with a bundle of the project's
current files, and then takes the files out of the reply. The reply marks each file with markers
such as `<<<CODE START: app.py>>> ... <<<CODE END: app.py>>>`. This project models the parts of
that pipeline that are pure logic and proves what they do:

- **The marker-block parser** `parse_llm_response` (module `ResponseParser`, with the proofs in
  `ResponseParserProofs`, `ParsedReplies` and `ParserStops`). It is modelled exactly as written,
  quirks included:
  - the four characters after `<<<DOC START:`'s `<<<` are `"DOC "`, so the end marker searched for
    is `<<<DOC  END:` (two spaces) and the doc dictionary is always empty;
  - the end marker is searched from the start of the remaining text, so an end marker written
    before its start marker makes the pass raise;
  - the two `IndexError`s the slicing can raise are the error results `NoFilenamePiece` and
    `NoContentDelimiter`.
- **The two retry layers.** The inner layer is `generate_content_with_retry` with the
  `send_to_llm` dispatch (module `ApiCaller`): three attempts with backoff delays 1, 2 and 4. The
  outer layer is `get_response_with_retry` with `get_llm_response` (module `LlmInteraction`): the
  configuration and credential lookups, then a retry while a reply lacks `<<` or `>>`. The
  provider adapters are an oracle `nat -> Outcome`: the index counts the attempts that reach
  `send_to_llm`, and `adapter(n)` is what the adapter call of the n-th attempt returns (`Fail` for
  an exception, `Text(s)` otherwise). An attempt with an unsupported provider name uses up its
  index without calling an adapter. The model records sleeps as a list
  of delays.
- **The option line of `config.txt`** (`LlmInteraction`). `FlexibleConfigParser` assigns its own
  `OPTCRE` (llm_interaction.py:19-24), but only after `RawConfigParser.__init__` has bound the
  pattern it matches with to the class default. So the override is never consulted, and every
  line is matched by configparser's default pattern `(?P<option>.*?)\s*(?P<vi>=|:)\s*(?P<value>.*)$`
  on the stripped line. Both patterns are modelled (`DefaultOption` and `MatchOption`), and
  `DefaultPatternAgrees` proves they split every stripped line the same way. The dead override
  therefore changes no result.
- **The input readers** `read_params_file` and `read_tasks_file`, and the extension map
  (`ProjectInputs`; `LastWins` is the fold of dictionary assignments).
- **The project bundle** `upload_project_code_and_docs`, and the trigger and pruning rules of
  `create_code_history_backup` (`ProjectManager`). A folder listing is a sequence of entries, and
  a folder tree is a sequence of nodes.
- **The Python string operations these rely on** (`Strings`): `strip`, `find`, `rfind`, `split`,
  `rsplit(…, 1)`, `replace`, `join`, `upper`, `lower` and slicing with clamped bounds.

The parser lemmas speak of *well-formed* blocks: a CODE or FILE block
`<<<KIND START: name>>>body<<<KIND END: name>>>` whose name holds no `<`, `>` or `:` and whose body
does not hold its own end marker `<<<KIND END:`. The body may hold anything else, angle brackets
and other markers included. Prose between blocks is *detached* when it holds no `<<<` and the text
after it opens with a block.

## Model

| member | source | states |
|---|---|---|
| ResponseParser.MinFound | main.py:88 | The smaller of two `find` results with -1 as "absent": it is one of the two, it is -1 exactly when both are absent, and it is no larger than either found index. |
| ResponseParser.StartFromSpec | main.py:87-88 | The scan from index i stops at a start marker, and no start marker begins between i and the index it returns (or anywhere from i on, when it returns -1). |
| ResponseParser.EarliestStartSpec | main.py:87-91 | The earliest start is a start marker with no start marker before it, and it is -1 exactly when the text holds none of the three start markers. |
| ResponseParser.MinOfFindsSpec | main.py:88 | The source's `min` over the `find`s of the three markers, with default -1, has the same two properties. |
| ResponseParser.EarliestStartIsMinOfFinds | main.py:87-88 | The scan the loop uses finds exactly the index that the minimum over three `find`s finds. |
| ResponseParser.MinOfFinds | main.py:88 | The source's minimum over the three `find`s is -1 or the index of a start marker inside the text. |
| ResponseParser.EarliestStart | main.py:87-88 | The scan the loop uses returns -1 or the index of a start marker inside the text. |
| ResponseParser.TagOfStart | main.py:93 | The four characters sliced after the `<<<` of a start marker of kind k are that kind's sliced tag: `CODE`, `DOC ` or `FILE`. |
| ResponseParser.StartTags | main.py:93 | At any start marker the sliced tag is one of the three sliced tags. |
| ResponseParser.StartTagLength | main.py:93-94 | At a start marker the tag has four characters, so the derived end marker has twelve. |
| ResponseParser.Cut | main.py:100-102 | Slicing a section raises exactly when the section lacks `<<<` or lacks `>>>`. Otherwise it yields a block with the given tag, a stripped file name, stripped content and the given remainder. It never stops the loop. |
| ResponseParser.Step | main.py:86-112 | A pass that continues has a four-character tag and stripped name and content, and leaves either nothing or at least 15 characters fewer than it was given, which is why the loop ends. |
| ResponseParser.StepHalts | main.py:89-98 | The loop breaks when no start marker is left or when the derived end marker is missing. |
| ResponseParser.StoreKeepsDoc | main.py:104-110 | No block ever reaches the doc dictionary, because no sliced tag equals `DOC`. Storing a block never removes a key from the code or file dictionary. |
| ResponseParser.Store | main.py:104-110 | Empty content changes nothing. Otherwise at most one dictionary changes: the one whose word the block's tag equals, and only by setting the block's name to its content. |
| ResponseParser.ParseLoop | main.py:86-112 | The loop terminates. A successful run leaves the doc dictionary as it was and only adds keys to the code and file dictionaries. |
| ResponseParser.ParseLlmResponse | main.py:81-114 | The doc dictionary returned is always empty; `language` plays no part. |
| ResponseParserProofs.KindFacts | main.py:87 | The shape of the three start markers: `<<<`, a word free of `<`, `>` and `:`, then ` START:`. Their sliced tags have four characters and equal the word for CODE and FILE. |
| ResponseParserProofs.StepUnfold | main.py:93-112 | A pass that finds the derived end marker at e cuts the section from the start marker to e + 15 and continues with the text after e + 15. |
| ResponseParserProofs.LeadFree | main.py:87-95 | No marker (`<<<` followed by a character other than `<`) begins inside detached leading text, not even one that would run on into the reply. |
| ResponseParserProofs.EarliestStartShift | main.py:87-88 | Detached text in front of a reply (text with no `<` at all, or with no `<<<` when the reply opens with `<<<`) moves the earliest start marker by its length and creates none. |
| ResponseParserProofs.EndMarkerShift | main.py:95 | Detached text in front of a reply moves where the end marker of any sliced tag is found by the length of that text, and leaves "not found" as "not found". |
| ResponseParserProofs.StepIgnoresLeadingText | main.py:86-112 | Detached prose in front of a reply does not change one pass of the loop. |
| ResponseParserProofs.ParseIgnoresLeadingText | main.py:86-112 | Detached prose in front of a reply does not change the parse result. |
| ResponseParserProofs.ParseOfPlainText | main.py:86-91 | A reply without any `<<<` extracts nothing and raises nothing. |
| ResponseParserProofs.FindEndOfBlock | main.py:94-95 | In a CODE or FILE block whose body does not hold its end marker, followed by anything, the derived end marker is first found where the block's closing marker begins, whatever else the body holds. |
| ResponseParserProofs.FindEndInsideBody | main.py:94-95 | A body that holds its own end marker is cut there: the derived end marker is found at that occurrence inside the body, before the block's closing marker. |
| ResponseParserProofs.BlockStart | main.py:87-93 | A reply that opens with a block has its earliest start marker at 0, and the tag sliced there is that block's sliced tag. |
| ResponseParserProofs.BlockCut | main.py:100-112 | The parser's cut through a CODE or FILE block yields the block up to three characters past the closing marker's `END:`, and the rest of the reply behind the remaining tail. |
| ResponseParserProofs.StepCutsSection | main.py:93-112 | One pass over a CODE or FILE block whose body does not hold its end marker cuts exactly that block's section. |
| ResponseParserProofs.SectionName | main.py:101 | The piece after a section's first `<<<`, cut at its first `>>>`, is the start marker's word followed by the file name, whatever the body holds. |
| ResponseParserProofs.NamedUnprefixed | main.py:101 | Removing `"<tag> START: "` from that text leaves exactly the file name, when the name holds no `:`. |
| ResponseParserProofs.BeforeLastMarker | main.py:102 | `rsplit('<<<', 1)[0]` of text ending in `<<<` and text free of `<` is everything before that `<<<`. |
| ResponseParserProofs.ContentBetween | main.py:102 | When the opening holds no `>` and the closing tail holds no `<`, the content is exactly what lies between the first `>>>` and the last `<<<`. |
| ResponseParserProofs.SectionContent | main.py:100-102 | The content sliced from the section of a block whose name holds no `<` or `>` is the body as it was written, whatever the body holds. |
| ResponseParserProofs.StepOnBlock | main.py:86-112 | One pass over a well-formed CODE or FILE block, followed by anything, extracts that block with its name and body stripped, and continues after the cut. |
| ParsedReplies.ParseBlock | main.py:86-112 | Parsing a reply that opens with a well-formed CODE or FILE block stores that block and then parses the rest of the reply. |
| ParsedReplies.ParseReply | main.py:86-112 | A reply of items (prose without `<<<`, then a well-formed CODE or FILE block) followed by prose without `<<<` never raises, and stores every block in reply order. |
| ParsedReplies.StoreIsAssign | main.py:104-110 | Storing one CODE or FILE block assigns its stripped name and content to the matching dictionary, and assigns nothing when the content strips to empty. |
| ParsedReplies.StoreAllIsAssign | main.py:104-110 | Storing the blocks of a sequence of items is assigning their pairs, in order and kind by kind, to the code and file dictionaries. |
| ParsedReplies.ParseWellFormedReply | main.py:81-114 | Round trip: a reply rendered from well-formed CODE and FILE blocks, with prose without `<<<` between them, parses to the dictionaries filled by assigning each block's stripped name and content in reply order, with an empty doc dictionary. |
| ParsedReplies.LaterBlockOverwrites | main.py:104-110 | A later well-formed block with the same kind and file name, whose body is not blank, overwrites an earlier one. |
| ParsedReplies.StoreContent | main.py:104-110 | Storing a CODE or FILE block whose content is not blank sets its stripped name to its stripped content in the matching dictionary. |
| ParsedReplies.BlankBodyAddsNothing | main.py:102-104 | A well-formed block whose content is whitespace only adds nothing (`if content:`). |
| ParsedReplies.ParseSingleBlock | main.py:81-114 | A reply holding one well-formed CODE or FILE block parses to that block stored into empty dictionaries. |
| ParsedReplies.StoreStripped | main.py:104-110 | A block whose name and content are already stripped and non-empty lands in the code dictionary (for CODE) or the file dictionary (for FILE) as written. |
| ParsedReplies.SingleCodeBlockExample | main.py:81-114 | `<<<CODE START: a.py>>>content<<<CODE END: a.py>>>` yields the code dictionary `{"a.py": "content"}` and two empty dictionaries. |
| ParserStops.NoStartMarkerNothing | main.py:87-91 | A reply with none of the three start markers yields nothing and does not raise. |
| ParserStops.MissingEndMarkerStops | main.py:93-98 | When the reply lacks the end marker derived from its earliest start marker, the loop stops and nothing more is extracted. |
| ParserStops.StartIsNotEnd | main.py:93-95 | No derived end marker occurs where its own start marker does, so the search cannot find the start marker itself. |
| ParserStops.EndIsNotDerivedEnd | main.py:93-95 | Where the end marker of one kind occurs, the end marker derived for another kind (or for DOC, whose derived marker has two spaces) does not. |
| ParserStops.MixedBlockHasNoEnd | main.py:93-95 | A block whose closing marker is of another kind than its opening marker, or that opens with DOC, and whose name holds no `<` and whose body does not hold the derived end marker, holds the derived end marker nowhere. |
| ParserStops.MismatchedBlockStops | main.py:93-98 | Such a block, whose name holds no `<` and whose body does not hold the derived end marker, stops the parser when the rest of the reply lacks that marker too; for example, a CODE START followed only by a DOC END yields no block. |
| ParserStops.DocBlockStopsParsing | main.py:93-98 | A DOC block `<<<DOC START: name>>>body<<<DOC END: name>>>` whose name holds no `<` and whose body does not hold `<<<DOC  END:` ends the parse when the rest of the reply lacks `<<<DOC  END:` too; nothing after it is extracted. |
| ParserStops.DerivedEndShape | main.py:94 | The end marker derived at a start marker has twelve characters and holds `<` only in its leading `<<<`. |
| ParserStops.ShortSection | main.py:100-101 | The section cut from a start marker to fifteen characters past an earlier end marker holds no `>>>`, and it is empty when the end marker lies fifteen or more characters before the start. |
| ParserStops.EndBeforeStartRaises | main.py:95-102 | An end marker found anywhere before the earliest start marker makes the pass raise, and the whole parse fails with that error. When the end marker lies fifteen or more characters before the start, the error is the failed `split('<<<')[1]`; a shorter gap gives a section of at most `<<<`, which has no `>>>`, so the pass raises as well. |
| ProjectInputs.LineEnd | main.py:41 | The first line of non-empty text ends just after its first `\n`, or at the end of the text when it has none. |
| ProjectInputs.ReadLinesShape | main.py:41 | `readlines()` glues back to the text; each line holds `\n` at most at its end, and every line but the last is non-empty and ends with `\n`. |
| ProjectInputs.ReadLinesAppend | main.py:41 | Reading text that ends with `\n` and then more text reads the lines of each, in order. |
| ProjectInputs.ReadOneLine | main.py:41 | A single line ending in `\n` reads as itself. |
| ProjectInputs.SplitAtFirst | main.py:45 | `t.split(c, 1)` unpacked into two halves and stripped gives two stripped strings, the first free of `c`. |
| ProjectInputs.ParamOf | main.py:44-49 | A params line yields a pair exactly when it holds `=` or `:`. Both halves are stripped and the key holds no `=`. |
| ProjectInputs.StripThenSplit | main.py:45-48 | Stripping the line before `split(c, 1)` changes neither stripped half. |
| ProjectInputs.ParamOfIsRawSplit | main.py:44-49 | A line holding `=` is split at its first `=`; otherwise a line holding `:` is split at its first `:`; a line with neither is ignored. |
| ProjectInputs.ReadParamsFile | main.py:35-51 | A missing file raises `FileNotFoundError`, and only then. Every key is stripped and free of `=`, and every value is stripped. |
| ProjectInputs.ParamLineRoundTrip | main.py:44-46 | A `key=value` line whose key holds no `=` reads as the stripped key and the stripped value, whatever the value holds. |
| ProjectInputs.ParamPairsAppend | main.py:43-49 | The pairs of two runs of lines are the pairs of the first run followed by those of the second. |
| ProjectInputs.ParamsLastLineWins | main.py:43-51 | The last line of a params file sets its key, whatever came before: a later key overwrites an earlier one. |
| ProjectInputs.Tasks | main.py:61-65 | Every task is a stripped, non-empty line. |
| ProjectInputs.StrippedLineHasNoNewline | main.py:63 | A stripped line read by `readlines()` holds no `\n`. |
| ProjectInputs.TasksHaveNoNewline | main.py:61-65 | No task holds a `\n`. |
| ProjectInputs.TaskTextLines | main.py:53-73 | The text returned is empty exactly when the file has no non-blank line. Otherwise, splitting it at `\n` gives back the stripped non-blank lines in file order, so it holds no blank line. |
| ProjectInputs.ReadTasksFile | main.py:53-73 | A missing file reads as no tasks, because it is created empty. The text returned is stripped: it neither starts nor ends with whitespace. |
| ProjectInputs.ExtensionFallback | main.py:161-165 | The extension is the lookup in the dictionary `{'python': 'py', 'java': 'java', 'perl': 'pl'}` with default `txt`: a language gets its own extension exactly when it is one of the dictionary's keys, so every other language, differently cased names included, gets `txt`. |
| ProjectInputs.Extension | main.py:161-165 | The extension is one of `py`, `java`, `pl` and `txt`, and it is `py`, `java` or `pl` exactly when the language is `python`, `java` or `perl` respectively. |
| LastWins.Assign | main.py:43-49 | Assigning a run of pairs into a dictionary leaves exactly the old keys and the keys of the pairs. |
| LastWins.AssignUntouched | main.py:46 | A key that no pair mentions keeps its old value. |
| LastWins.AssignLastWins | main.py:43-49 | The last pair for a key decides its value: later assignments overwrite earlier ones. |
| LastWins.AssignConcat | main.py:43-49 | Assigning two runs of pairs one after the other is assigning their concatenation. |
| ApiCaller.DispatchExact | api_caller.py:41-53 | Exactly the names openai, gemini, anthropic, perplexity and groq are routed, each to its own adapter. |
| ApiCaller.ProviderOf | api_caller.py:41-53 | The routing inverts the provider names: a routed name is that provider's name, and every provider's name routes to that provider. |
| ApiCaller.SendToLlm | api_caller.py:41-53 | A supported provider name passes the adapter's outcome through unchanged; any other name fails without reaching an adapter. |
| ApiCaller.UnsupportedProviderFails | api_caller.py:52-53 | An unsupported provider name never reaches an adapter. Its `ValueError` is retried like any other failure, so the wrapper returns `None` after three attempts and the delays 1, 2, 4, whatever the adapters would have answered. |
| ApiCaller.FailedAttemptMoves | api_caller.py:124-128 | A failed attempt counts as one more failure, and it adds its delay to the sleeps. |
| ApiCaller.GenerateContentWithRetry | api_caller.py:108-131 | The source's loop makes exactly the attempts of the attempt-by-attempt reference definition, at least one and at most `MAX_RETRIES` = 3 of them. |
| ApiCaller.Attempts | api_caller.py:112-128 | Every failed attempt is followed by one sleep and the successful attempt by none. |
| ApiCaller.AttemptsSleepBackoff | api_caller.py:124-128 | The sleeps of a run are the backoff delays of its failed attempts, in order: attempt k sleeps `INITIAL_DELAY` × `BACKOFF_FACTOR`^k. |
| ApiCaller.BackoffDelays | api_caller.py:18-20 | The delays start at `INITIAL_DELAY` = 1 and double with `BACKOFF_FACTOR` = 2 over `MAX_RETRIES` = 3 failures: 1, 2, 4. |
| ApiCaller.SuccessAfterFailures | api_caller.py:112-128 | Success on attempt m after failures returns that attempt's text unchanged (not stripped), after m attempts in all and exactly the delays of the m − 1 failures before it. |
| ApiCaller.AllFail | api_caller.py:124-131 | When every attempt fails, the wrapper returns `None` after three attempts. It sleeps after every failure, the last one included. |
| ApiCaller.AttemptsOutcome | api_caller.py:112-131 | The wrapper returns text exactly when one of its attempts returns text that is not blank, and what it returns is never blank. It makes between one and three attempts, and all three when it returns `None`. |
| LlmInteraction.ApiKeyVariable | llm_interaction.py:40 | The credential variable is the provider name upper-cased, character by character, followed by `_API_KEY`. |
| LlmInteraction.KeyVariableIgnoresCase | llm_interaction.py:40 | Two provider names that differ only in letter case use the same credential variable. |
| LlmInteraction.Setting | llm_interaction.py:37-38 | A lookup succeeds exactly when the section exists and holds the lower-cased option, and gives that option's value. Otherwise it fails with the missing section, or else with the missing option. |
| LlmInteraction.ReadSetup | llm_interaction.py:36-42 | Success means the provider, its model and a non-empty key were all found, in that order. A missing preference fails with that lookup's error on the `Preferences` section, never with a missing key, and a missing key is reported only after the provider was read. |
| LlmInteraction.MissingKeyRaises | llm_interaction.py:36-46 | With the configuration present, the call fails with `MissingApiKey` exactly when the key variable is unset or empty, before any provider call. Otherwise it runs the retry rounds for the configured provider from adapter call 0. |
| LlmInteraction.RoundsAfterRejected | llm_interaction.py:48-51 | A round whose reply is rejected is followed by the rounds from the next attempt on. The next wrapper invocation starts after the rejected round's calls, and the rejected round's calls and sleeps count toward the total. |
| LlmInteraction.RoundAccepted | llm_interaction.py:48-53 | A round whose wrapper result is accepted ends the loop with that result. |
| LlmInteraction.RoundRejected | llm_interaction.py:48-51 | A rejected round moves the loop to the next attempt, with its calls and sleeps added to those already made. |
| LlmInteraction.RoundsExhausted | llm_interaction.py:44-61 | Once no outer attempt is left, the result is `None`. |
| LlmInteraction.RetryRounds | llm_interaction.py:44-61 | The source's `for` loop computes the round-by-round reference definition. |
| LlmInteraction.Rounds | llm_interaction.py:44-61 | Over all outer attempts, every adapter call is followed by at most one sleep, and when text is returned there are fewer sleeps than calls. |
| LlmInteraction.GetResponseWithRetry | llm_interaction.py:35-61 | It reads the provider, its model and its key, then runs the retry rounds: the result of the reference definition. |
| LlmInteraction.GetLlmResponse | llm_interaction.py:31-33 | `language` is ignored, and `include_markers` and `max_retries` are passed on unchanged. |
| LlmInteraction.RoundBounds | llm_interaction.py:44-46 | At most `max_retries` outer attempts run, and at least one when any is allowed. Each attempt makes one to three adapter calls, so there are at most `max_retries` × 3 calls in all. |
| LlmInteraction.ReturnedTextHasMarkers | llm_interaction.py:48-53 | With the marker check on, any returned text holds both `<<` and `>>`, so a marker-less text is never kept. Whatever is returned is not blank. |
| LlmInteraction.InnerNoneIsReturned | llm_interaction.py:46-53 | A `None` from the wrapper is returned at once, after one outer attempt, because the marker check is skipped for falsy responses. |
| LlmInteraction.FirstResultWithoutCheck | llm_interaction.py:48-53 | Without the marker check, the first wrapper result is returned as it is, after one outer attempt. |
| LlmInteraction.MarkerlessProviderGetsNothing | llm_interaction.py:44-61 | If the provider never writes both markers, the checked loop returns `None` however many outer attempts are allowed. |
| LlmInteraction.TextComesFromAdapter | llm_interaction.py:46-53 | Any text the outer loop returns is one that some adapter call returned. |
| LlmInteraction.InnerTextFromAdapter | api_caller.py:112-122 | The text the wrapper returns is what its last adapter call returned. |
| LlmInteraction.FirstDelimiter | llm_interaction.py:21-22 | The index of the first `:` or `=`: every character before it is neither, and it is -1 exactly when the line holds neither. |
| LlmInteraction.MatchOption | llm_interaction.py:20-24 | The pattern the override writes (never consulted) matches a line exactly when the line is non-empty, does not start with whitespace, `:` or `=`, and holds a `:` or `=`. The option part is then non-empty and free of `:` and `=`, the delimiter is `:` or `=`, and the value is stripped. |
| LlmInteraction.OptionAgreesWithParams | llm_interaction.py:20-24 | On a line whose only delimiters are `=`, the option pattern, and so configparser's default one, agree with the params-file reader on the key and the value. |
| LlmInteraction.DefaultOption | llm_interaction.py:26-29 | The line reader configparser applies when `read_config` reads `config.txt`: a line with no `:` or `=` is a parsing error, and a line it accepts has a non-empty option name, a `:` or `=` delimiter and a stripped value. |
| LlmInteraction.DefaultPatternAgrees | llm_interaction.py:19-24 | On every stripped non-empty line, configparser's default pattern gives exactly what the override's pattern would: the same acceptance, option name, delimiter and value. |
| LlmInteraction.ColonBeforeEquals | llm_interaction.py:20-24 | On `k:v=w`, the config option pattern and the params-file reader differ: the option pattern (like configparser's default one) splits at the `:`, the params-file reader at the `=`. |
| ProjectManager.TextIsNotCode | project_manager.py:107 | A `.txt` name is bundled but is never a code name. |
| ProjectManager.Keep | project_manager.py:43-45 | The entries that contribute are exactly the regular files named `.py`, `.java`, `.pl` or `.txt`. |
| ProjectManager.BundleAppend | project_manager.py:42-48 | The bundle of two listings is the bundle of the first followed by that of the second, so entries contribute in listing order. |
| ProjectManager.BundleOne | project_manager.py:43-48 | A single entry adds exactly `"\n\n---\n\nFile: {name}\n\n{content}\n\n"` when it contributes, and nothing otherwise. |
| ProjectManager.UploadProjectCodeAndDocs | project_manager.py:39-50 | The source's loop builds the bundle of the listing; the prompt and the language play no part. |
| ProjectManager.BundleEmpty | project_manager.py:40-50 | The bundle is `""` exactly when no entry contributes. Otherwise it starts with the first contributing entry's section. |
| ProjectManager.Bundle | project_manager.py:42-50 | Each contributing entry adds at least the 17 characters of its section's frame. |
| ProjectManager.Under | project_manager.py:131-132 | Placing files inside a folder keeps their number and order, and puts the folder at the front of each file's path. |
| ProjectManager.Unpruned | project_manager.py:126-127 | The files kept are exactly those whose path passes through no `code_history` folder. |
| ProjectManager.Walk | project_manager.py:105-106 | Every top-level file is found, and the files found at the top level are top-level files. |
| ProjectManager.Copies | project_manager.py:124-134 | No copied file's path passes through `code_history`. Every top-level file is copied, and the top-level copies are top-level files. |
| ProjectManager.CopiesArePruned | project_manager.py:124-134 | The copy walk copies exactly the files of the full walk whose path passes through no `code_history` folder, at any depth, in the same order and with their relative paths. |
| ProjectManager.HasCodeIsWalk | project_manager.py:104-111 | The existence scan finds a code file exactly when a file at any depth is named `.py`, `.java` or `.pl`, old backups included. |
| ProjectManager.HasCode | project_manager.py:104-111 | A code file at the top level always makes the scan succeed. |
| ProjectManager.CreateCodeHistoryBackup | project_manager.py:100-136 | A backup is made exactly when some file at any depth is a code file. It then holds every file outside `code_history`, under `code_history/<timestamp>` at the path it has in the project. |
| ProjectManager.TextOnlyNoBackup | project_manager.py:104-116 | `.txt` files alone never trigger a backup. |
| ProjectManager.OldBackupTriggers | project_manager.py:104-134 | Code kept only inside an old backup still triggers a new backup, but none of the old backup is copied into it. |
| Strings.Strip | main.py:63 | `strip()` removes whitespace: its result is stripped, is the text with only whitespace cut from both ends, and is empty exactly when the text is all whitespace. |
| Strings.StripIs | main.py:63 | Text made of whitespace, a stripped non-empty core and whitespace strips to that core. |
| Strings.StripStripped | main.py:101-102 | Stripping is idempotent. |
| Strings.IndexOfChar | main.py:45 | The first occurrence of a character: the character is there and not before it, and -1 means it is absent. |
| Strings.Find | main.py:95 | `find` returns an index where the pattern occurs with no occurrence before it, or -1 when it occurs nowhere. |
| Strings.MarkerAfterText | main.py:95 | A pattern that is `<<<` followed by no further `<` is first found right after text that does not contain it: no occurrence can straddle that text's end. |
| Strings.Split | main.py:101 | `split(sep)` returns pieces free of `sep` that join back to the text, with a single piece exactly when `sep` does not occur. |
| Strings.FirstPieceAfterFree | main.py:101 | Text free of the separator's first character stays at the front of the first piece of a split. |
| Strings.SplitOnce | main.py:102 | `split(sep, 1)` has a second part exactly when `sep` occurs. The text is then the first part, `sep` and the second part, and the first part holds no `sep`. |
| Strings.BeforeLast | main.py:102 | `rsplit(sep, 1)[0]` is the text before the last occurrence of `sep`, or all of the text when `sep` does not occur. |
| Strings.SplitJoin | main.py:73 | Splitting the `"\n"`-join of pieces that hold no `\n` gives back the pieces. |
| Strings.JoinEnds | main.py:73 | Joining non-empty pieces starts with the first piece's first character and ends with the last piece's last character. |
| Strings.Upper | llm_interaction.py:40 | `upper()` keeps the length and upper-cases character by character. |

## Left out

- The provider adapters (api_caller.py:55-106) are foreign SDK and HTTP calls. They are the oracle `adapter`: a returned string is `Text`; an exception, or a return that is not a string (such as `None`, whose `.strip()` raises at api_caller.py:116), is `Fail`.
- `time.sleep` and all logging are left out. The model records the delays as a list, and log messages have no effect.
- All file I/O is left out: reading `params.txt` and `tasks.txt` (their text is a parameter, `None` when the file is missing), the archive `tasks_archive.txt` and its timestamps (main.py:67-71), `log_request` and `log_response`, `os.listdir` and `os.path.isfile` (the listing is a parameter), the order of `os.walk` (the order of the walk is not modelled; no result depends on it), symbolic links, and the folder creation and copying of the backup. The backup's timestamp is a parameter.
- `generate_code_for_project` (main.py:116-242), `compile_to_exe`, `create_app_subfolder` and `setup_logging` are left out. They are interactive, or run subprocesses and file writes, and hold no logic beyond what is modelled.
- Reading `config.txt` is left out, along with the sections, comments, continuation lines, interpolation and `DEFAULT` handling of configparser. The configuration is a map of sections to options. One option line is modelled by `LlmInteraction.DefaultOption`, the default pattern configparser applies, and by `LlmInteraction.MatchOption`, the pattern `FlexibleConfigParser` assigns too late to take effect.
- LlmInteraction.RetryRounds: the `except` branch of the outer loop (llm_interaction.py:55-59) is left out, because the wrapper it guards catches every exception itself and never raises.
- ResponseParser.Cut: for an arbitrary section, the contract does not say which name and content are sliced. For the sections of well-formed blocks, `ResponseParserProofs.StepOnBlock` states them exactly.
- ResponseParser.Step: likewise, the general contract gives only the shape of the result. The lemmas of `ParserStops` state when it stops or raises, and `ResponseParserProofs.StepOnBlock` gives the block it extracts.
- ResponseParser.ParseLoop: for malformed replies other than those in `ParserStops`, only the general contract holds: no doc entry, and keys only added.
- Strings.Upper: `upper()` and `lower()` are ASCII only. Python's case mapping of other letters, and the configparser lower-casing of non-ASCII option names, are not modelled.
- Strings.Replace: the contract states only that text without the target is unchanged. The one replacement the parser makes is proved exact by `ResponseParserProofs.NamedUnprefixed`.
- Strings.Strip: whitespace is the set of characters that Python's `str.isspace` accepts. Universal-newline translation when reading files is not modelled: Python turns `\r\n`, and also a lone `\r`, into `\n`.
- ParsedReplies.ParseReply: the exact result is proved only for well-formed blocks with prose without `<<<`. A file name holding `<`, `>` or `:` changes what `split('<<<')[1].split('>>>')[0]` and the `replace` slice out of the opening line, and prose holding `<<<` may complete a marker with the text after it. For such replies only the general contract of `ResponseParser.ParseLoop` holds. A body that holds its own end marker is cut there, as `ResponseParserProofs.FindEndInsideBody` shows.
- ParsedReplies.ParseWellFormedReply: the same restriction as `ParsedReplies.ParseReply`.
- ParsedReplies.ParseBlock: proved for a well-formed block only, for the reasons given under `ParsedReplies.ParseReply`.
- ParsedReplies.ParseSingleBlock: proved for a well-formed block only, likewise.
- ParsedReplies.LaterBlockOverwrites: proved for well-formed blocks only, likewise.
- ParserStops.MixedBlockHasNoEnd: proved only for names free of `<`, because a name may itself complete the derived end marker. A body that holds the derived end marker is not covered: the parser finds the marker there (as `ResponseParserProofs.FindEndInsideBody` shows for CODE and FILE blocks), so the block is cut at it.
- ParserStops.MismatchedBlockStops: proved only for names free of `<` and bodies that do not hold the derived end marker, for the same reasons. A DOC body that holds `<<<DOC  END:` is cut there, and a later block may then be extracted.
- ParserStops.DocBlockStopsParsing: proved only for names free of `<` and bodies that do not hold `<<<DOC  END:`, for the same reasons.
- ResponseParserProofs.StepOnBlock: proved for a well-formed block only, likewise.
- ResponseParserProofs.ParseIgnoresLeadingText: proved for detached prose only. Prose holding `<<<`, or holding a `<` in front of a reply that does not open with `<<<`, can form a marker of its own.
- ProjectManager.Bundle: the contract bounds only the length. The exact text of each section is stated by `ProjectManager.BundleOne`, and the order by `ProjectManager.BundleAppend`.
