# openqa-clone-runner, modelled in Dafny

`clone_runner.py` reads YAML configuration files and turns each document into command lines for
the openQA tools. A document either clones existing jobs (`openqa-clone-job`) or posts ISOs
(`openqa-cli api -X post isos`), one post per combination of its list variables. Before that,
`%NAME%` placeholders are expanded. The runner collects the job URLs the tools report, and for
every configuration file that produced any it writes them to a `.urls.txt` file.

This project models everything between "YAML parsed" and "argument list handed to the tool", and
then what the runner does with the tool's output. It covers:

- the duplicate-key check of `UniqueKeyLoader` and the null-document filter of `load_configs`;
- `validate_variables`;
- `expand_variables`: the scan for `%NAME%` tokens, the live in-place rewriting over at most five
  passes, and the warnings;
- `run_iso_post`:
  - the required-variable check;
  - the split into scalars and lists;
  - `itertools.product`;
  - the per-combination merge;
  - host resolution;
  - the command;
  - the job URLs;
- `run_clone_jobs`: one command per job URL;
- `extract_urls`: the `->\s+(https?://\S+)` scanner;
- the per-file and per-document loops of `main`, including where the URL file goes.

Model structure:

- Each module follows one part of the source: `Loader`, `Validation`, `Placeholders` and
  `Expansion`, `Combinations`, `Hosts` and `Commands`, `IsoMode`, `CloneMode`, `Output`,
  `Driver`.
- Python dictionaries are ordered sequences of entries with distinct keys (`Values.Dict`). The
  source's loops are methods over values, each proved equal to a specification function. The
  properties the source promises are lemmas about those functions.
- Values are immutable, so `expand_variables` leaving its argument untouched (it works on a
  `copy()`) holds by construction.
- `Scenarios` replays the unit tests of `validate_variables` (test_clone_runner.py) and some
  worked examples:
  - `A: '%A%'` is a fixed point without warnings;
  - `A: '%B%', B: '%A%'` settles at `A = B = '%A%'`;
  - `A: 'x%A%'` hits the iteration limit.

Outside world:

- Running a command is an `Executor` parameter, a function from argument list to optional
  standard output. A dry run never calls it.
- JSON decoding of an ISO post's reply is an `IdReader` parameter.
- Python's `repr` of a list (used when clone mode formats `K=[...]`) is a `renderList`
  parameter.
- A configuration file arrives as the sequence of documents the YAML parser produced. Each
  document carries the (key, line) sequences of its mapping nodes.

Where the tests and the code disagree, the model follows the code:

- The validation tests expect `SystemExit(1)` and printed text.
- `validate_variables` raises `ValueError` with those messages instead, and `main` does not
  catch it.
- Either way the whole run ends at the first bad document. The model returns the error and runs
  nothing after it.
- A required variable missing in ISO mode also ends the whole run (`sys.exit(1)`), not only that
  document.

## Model

| member | source | states |
|---|---|---|
| Loader.FirstDuplicate | clone_runner.py:13-20 | Defines the duplicate-key verdict of a mapping node; `FirstDuplicateSpec` and `DuplicateFromSpec` state it. |
| Loader.Load | clone_runner.py:22-27 | Defines `load_configs` on parsed documents; `LoadSpec` states it. |
| Loader.CheckMapping | clone_runner.py:13-20 | The loop that grows the set of seen keys returns exactly the first-duplicate verdict of the node. |
| Loader.FirstDuplicateSpec | clone_runner.py:13-20 | A mapping node is rejected iff two keys are equal. The error names the first key that is seen a second time, at the 1-based line of that second occurrence. |
| Loader.DuplicateFromSpec | clone_runner.py:14-19 | The scan from position `i`, with the keys before `i` as the seen set, finds the first repeat at or after `i`, or none iff there is none. |
| Loader.LoadSpec | clone_runner.py:22-27 | Loading succeeds iff every document is loadable. It then yields the non-null documents in file order. Otherwise it fails with the path and the cause of the first bad document. |
| Loader.LoadConfigs | clone_runner.py:22-27 | The document loop, checking every mapping node in order, computes `Load`. |
| Validation.EntryProblem | clone_runner.py:37-44 | An error found for an entry is one of the three rule errors and names that entry's key. |
| Validation.FirstProblem | clone_runner.py:34-44 | No error iff every entry passes. Otherwise the error is that of some entry, and every entry before it passes: the first failure in mapping order. |
| Validation.ValidateVariables | clone_runner.py:34-36 | An absent, null or empty mapping passes; a given mapping gets its first problem. |
| Validation.EntryRules | clone_runner.py:38-44 | The uppercase error iff the key holds a lower-case letter. Under an upper-case key: the empty-string error iff the value is `""`, the empty-in-list error iff a list holds `""`, and no error for ints, booleans, other scalars, non-empty strings and lists without `""`. |
| Text.Upper | clone_runner.py:38 | `str.upper` maps every character through the ASCII upper-case map and keeps the length. |
| Text.UpperFixedIff | clone_runner.py:38 | `key != key.upper()` holds iff the key contains a lower-case letter. |
| Text.ContainsIff | clone_runner.py:140 | The recursive substring test agrees with "occurs at some index". |
| Text.RStrip | clone_runner.py:152 | `rstrip('/')` gives a prefix that does not end in `/`, and only `/` was dropped. |
| Text.NatToString | clone_runner.py:175 | The decimal rendering is non-empty, all digits, and has no leading zero. |
| Text.NatToStringRoundTrip | clone_runner.py:175 | Reading the decimal rendering back gives the number. |
| Text.IntToString | clone_runner.py:99 | The rendering of an int starts with `-` iff the int is negative. |
| Values.IndexOf | clone_runner.py:57 | The first position of a key, or the length when the key is absent; the key is present iff the position is in range. |
| Values.Show | clone_runner.py:59 | Defines `str()` of a scalar; `Text.IntToString` and `Text.NatToStringRoundTrip` state the integer case, `Commands.JobUrlReadBack` reads it back. |
| Values.Get | clone_runner.py:57 | `dict.get` finds a value iff the key is present. |
| Values.GetAt | clone_runner.py:57 | In a dictionary, looking up the key at position `i` gives the value at `i`. |
| Values.Put | clone_runner.py:59 | `d[k] = v` keeps the keys, or appends `k` when new. Afterwards `k` maps to `v` and every other key is unchanged. |
| Values.PutAt | clone_runner.py:59 | Writing an existing key replaces its entry where it stands. |
| Values.PutReplace | clone_runner.py:59 | Replacing the value at a position keeps the keys and changes the lookup of that key only. |
| Values.PutAppend | clone_runner.py:126 | Appending a new key keeps the keys distinct and changes the lookup of that key only. |
| Placeholders.WordRun | clone_runner.py:57 | The maximal run of `\w` characters at the front of a string. |
| Placeholders.TokenAt | clone_runner.py:57 | A match at the front of a string is `%`, a valid name and `%`. A string starting with another character has no match there. |
| Placeholders.TokenAtRendered | clone_runner.py:57 | `%NAME%` at the front of a string is matched as exactly that name. |
| Placeholders.Fill | clone_runner.py:57 | Defines substitution piece by piece; `FillConcat`, `FillUndefined` and `FillDependsOnNames` state it. |
| Placeholders.Substitute | clone_runner.py:57 | Defines the `re.sub` of a string; `SubstituteUndefined`, `SubstituteNoPercent` and `SubstituteSingle` state it. |
| Placeholders.Scan | clone_runner.py:57 | The scan cuts a string into literals and well-formed tokens. |
| Placeholders.ScanRender | clone_runner.py:57 | Rendering the pieces of the scan gives back the string. |
| Placeholders.ScanGreedy | clone_runner.py:57 | No literal `%` of the scan could have started a token: matching is left to right and greedy. |
| Placeholders.ScanUnique | clone_runner.py:57 | The scan is the only well-formed, greedy cutting of a string, so `re.sub`'s non-overlapping matches are exactly its tokens. |
| Placeholders.ScanTokenPrefix | clone_runner.py:57 | A string that starts with `%NAME%` scans as that token followed by the scan of the rest. |
| Placeholders.ScanNoPercentPrefix | clone_runner.py:57 | A prefix without `%` scans as its characters, in front of the scan of the rest. |
| Placeholders.Names | clone_runner.py:71 | `re.findall(r'%(\w+)%')`: a name is found iff a token with that name is in the scan. |
| Placeholders.NoPercentNoTokens | clone_runner.py:56 | A string without `%` holds no token and no name. |
| Placeholders.FillConcat | clone_runner.py:57 | Substitution works piece by piece: it distributes over concatenation. |
| Placeholders.FillUndefined | clone_runner.py:57 | Pieces whose names are not keys are rendered verbatim. |
| Placeholders.SubstituteUndefined | clone_runner.py:57 | A `%NAME%` whose NAME is not a key stays verbatim. A string whose tokens name no key is unchanged. |
| Placeholders.SubstituteNoPercent | clone_runner.py:56 | A string without `%` is unchanged by substitution. |
| Placeholders.SubstituteSingle | clone_runner.py:57 | In a string with one token, that token alone is replaced: by `str()` of its value when its NAME is a key, else by itself. |
| Placeholders.FillDependsOnNames | clone_runner.py:57 | Substitution reads only the values of the names the tokens mention. |
| Expansion.Pass | clone_runner.py:54-60 | Defines one pass of the outer loop; `PassFrom`, `PassFromUnfold` and `PassFromNoReferences` state it. |
| Expansion.Iterate | clone_runner.py:52-63 | Defines the outer loop; `IterateLimit`, `IterateStops`, `IterateFrame` and `IterateUnfold` state it. |
| Expansion.Expand | clone_runner.py:46-75 | Defines `expand_variables`; `ExpandKeepsShape`, `ExpandLimit`, `ExpandWarnings` and `ExpandNoReferences` state it. |
| Expansion.Step | clone_runner.py:55-60 | One inner-loop iteration keeps the keys and every other entry. It reports a change iff the entry changed, does nothing when unchanged, and never touches a value that is not a string holding `%`. |
| Expansion.StepPut | clone_runner.py:56-59 | A changed value is written back by `d[key] = new_val` against the live state. Otherwise the state stays as it is. |
| Expansion.PassFrom | clone_runner.py:54-60 | The rest of a pass keeps the keys, the entries already behind it and every non-expandable value. It counts zero changes iff nothing changed. |
| Expansion.PassFromUnfold | clone_runner.py:54-60 | A pass from `i` is the step at `i`, then the pass from `i + 1` on the live state, plus one change if the step changed. |
| Expansion.RewriteEntry | clone_runner.py:56-60 | The loop body, with its in-place write, computes the step. |
| Expansion.PassAdvance | clone_runner.py:55-60 | One iteration of the inner loop keeps the loop's invariant: the remaining pass on the live copy gives the pass's result. |
| Expansion.PassDone | clone_runner.py:54-60 | At the end of the inner loop the working copy and the counter are the pass's result. |
| Expansion.RunPass | clone_runner.py:54-60 | The inner loop, rewriting the working copy entry by entry, yields the pass's new state and its `changes`. |
| Expansion.AfterShift | clone_runner.py:53-63 | `j + 1` passes are one pass followed by `j` passes. |
| Expansion.AllPassesChangeShift | clone_runner.py:53-63 | All of `budget` passes change something iff the first does and all of the next `budget - 1` do. |
| Expansion.IterateUnfold | clone_runner.py:53-63 | The outer loop stops after a quiet pass, else goes on with one pass less. |
| Expansion.IterateLimit | clone_runner.py:52-63 | `limit_hit` iff every pass of the budget changed something. The state is then the one after all the passes. |
| Expansion.IterateStops | clone_runner.py:52-63 | Without the limit, the loop stopped at the first pass that changed nothing. Its state is the state after the passes before it, and a fixed point: one more pass changes nothing. |
| Expansion.FirstQuietShift | clone_runner.py:61-63 | A first quiet pass after a busy pass is the next first quiet pass of the original state. |
| Expansion.IterateFrame | clone_runner.py:51-59 | The loop keeps keys and order and never touches a non-expandable value. |
| Expansion.UndefinedNames | clone_runner.py:71-72 | The undefined names of a value: each name that is not a key, exactly once. |
| Expansion.UndefinedWarnings | clone_runner.py:68-73 | Defines the "not defined" warnings of the final state, entry by entry; `UndefinedWarningsMembers`, `UndefinedWarningsNoRepeats` and `ExpandWarnings` state them. |
| Expansion.EntryWarnings | clone_runner.py:69-73 | An entry warns about `(NAME, key)` iff its value is a string holding `%NAME%` and NAME is not a key; no warning twice. |
| Expansion.UndefinedWarningsMembers | clone_runner.py:68-73 | Over the whole mapping: a warning `(NAME, key)` iff NAME is not a key and the value of `key` mentions it. |
| Expansion.UndefinedWarningsNoRepeats | clone_runner.py:68-73 | With distinct keys, no warning is given twice. |
| Expansion.ExpandKeepsShape | clone_runner.py:49-59 | `expand_variables` gives exactly the input's keys in the same order. Values that are not strings holding `%` (non-strings, strings without `%`) come back unchanged. |
| Expansion.ExpandLimit | clone_runner.py:52-66 | The iteration-limit warning iff all five passes changed something. Otherwise the result is what the first quiet pass saw, and a fixed point. |
| Expansion.ExpandWarnings | clone_runner.py:68-73 | One "not defined" warning per variable and distinct NAME where `%NAME%` remains and NAME is not a key. Names that are keys never warn. There are no other warnings besides the limit, and none twice. |
| Expansion.PassFromNoReferences | clone_runner.py:54-60 | When no token names a key, a pass changes nothing. |
| Expansion.ExpandNoReferences | clone_runner.py:53-63 | When no token names a key, expansion is the identity and does not hit the limit. |
| Expansion.ExpandVariables | clone_runner.py:46-75 | The method (copy, five-pass loop with counter and flag, then the warning scan) computes `Expand`. |
| Expansion.CollectUndefined | clone_runner.py:68-73 | The warning loop over the final state computes the undefined-name warnings. |
| Combinations.ScalarsOf | clone_runner.py:124-128 | Every scalar kept is a key of the mapping. |
| Combinations.ListsOf | clone_runner.py:124-126 | Every list kept is a key of the mapping. |
| Combinations.Split | clone_runner.py:122-128 | The loop filling `scalars` and `lists` gives the scalar and list parts of the mapping. |
| Combinations.SplitMembers | clone_runner.py:124-128 | A list lands in `lists` with its items, a non-null scalar in `scalars` with its value, and a null nowhere. |
| Combinations.ScalarsOrder | clone_runner.py:124-128 | The scalars keep the mapping order. |
| Combinations.ListsOrder | clone_runner.py:131-132 | The list keys keep the mapping order. |
| Combinations.SplitDisjoint | clone_runner.py:122-128 | Both halves have distinct keys and share none. |
| Combinations.SplitApart | clone_runner.py:122-128 | No scalar key is a list key. |
| Combinations.Product | clone_runner.py:133 | Defines `itertools.product`; `ProductSize`, `ProductAt` and `ProductMembers` state it. |
| Combinations.Bind | clone_runner.py:156-158 | Defines the copy-then-write merge; `BindAppends` states it. |
| Combinations.CombinationsOf | clone_runner.py:130-158 | Defines the merged mappings of a document; `CombinationsSpec`, `CombinationAt` and `CombinationsCount` state them. |
| Combinations.PrependAll | clone_runner.py:133 | Prefixing each of `n` elements to each of `m` tails gives `n * m` picks. |
| Combinations.ProductSize | clone_runner.py:133 | The number of combinations is the product of the list lengths (1 with no lists). It is 0 iff some list is empty. |
| Combinations.PrependAllAt | clone_runner.py:133 | Pick `a * m + b` is element `a` followed by tail `b`. |
| Combinations.ProductAt | clone_runner.py:133 | Pick `a * P + b` is element `a` of the first list followed by pick `b` of the others: the first list varies slowest. |
| Combinations.PrependAllMembers | clone_runner.py:133 | A pick is in the prefixing iff its head is one of the elements and its tail one of the tails. |
| Combinations.ProductMembers | clone_runner.py:133 | A pick is in the product iff it takes one element from each list, in list order. |
| Combinations.Zip | clone_runner.py:157-158 | Pairing the list keys with a pick keeps the keys in order. |
| Combinations.BindStep | clone_runner.py:157-158 | One iteration of the merge loop writes one list key. |
| Combinations.MergeCombination | clone_runner.py:156-158 | The copy-then-write loop computes the merged mapping. |
| Combinations.PrefixKeeps | clone_runner.py:157-158 | A prefix of distinct list keys apart from the scalars stays so. |
| Combinations.BindAppends | clone_runner.py:156-158 | With list keys distinct and apart from the scalar keys, the merge is the scalars in their order followed by each list key with its element. |
| Combinations.LastApart | clone_runner.py:157-158 | The last list key is not yet a key of the mapping the earlier writes built. |
| Combinations.ListKeysApart | clone_runner.py:122-131 | The list keys of a split are distinct and are not scalar keys. |
| Combinations.CombinationsSpec | clone_runner.py:130-158 | There are as many mappings as the product of the list lengths, a single scalars-only one without lists. Mapping `j` is every non-null scalar in order, then each list key bound to its element of pick `j`. |
| Combinations.CombinationAt | clone_runner.py:154-158 | Mapping `j` is made from product pick `j`, which takes one element from each list. |
| Combinations.CombinationsCount | clone_runner.py:133 | The number of merged mappings is the product of the list lengths. |
| Hosts.ResolveHost | clone_runner.py:138-152 | A resolved host never ends in `/`. |
| Hosts.ResolveHostConflict | clone_runner.py:139-145 | Resolution fails iff a non-empty host lacks `suse.de` under `--osd` or lacks `opensuse.org` under `--o3`. The `--osd` check wins when both fail. |
| Hosts.ResolveHostGiven | clone_runner.py:139-152 | A host that passes is kept up to its trailing slashes. |
| Hosts.ResolveHostDefault | clone_runner.py:146-152 | A missing or empty host gives `https://openqa.suse.de`, unless `--o3` is given without `--osd`, which gives `https://openqa.opensuse.org`. |
| Commands.FirstEquals | clone_runner.py:165 | The first `=` of an argument, or its length. |
| Commands.AssignmentReadBack | clone_runner.py:165 | `K=V` splits back at its first `=` into the key and the value when the key holds no `=`. |
| Commands.IsoCommand | clone_runner.py:163-165 | Defines the post command; `IsoCommandShape` states it. |
| Commands.CloneCommand | clone_runner.py:95-99 | Defines the clone command; `BuildCloneCommand`, `CloneArgumentsMembers` and `CloneArgumentsConcat` state it. |
| Commands.JobUrl | clone_runner.py:175 | Defines `f"{host}/t{jid}"`; `JobUrlReadBack` states it. |
| Commands.IsoArguments | clone_runner.py:164-165 | One argument per variable. |
| Commands.IsoCommandShape | clone_runner.py:163-165 | The post command is `openqa-cli api -X post isos`, the flags untouched, then `K=str(V)` per variable in order, each splitting back into key and value. |
| Commands.BuildIsoCommand | clone_runner.py:163-165 | The append loop builds that command. |
| Commands.CloneArguments | clone_runner.py:97-99 | Defines the `K=V` arguments of the non-null variables in mapping order; `CloneArgumentsMembers` and `CloneArgumentsConcat` state them. |
| Commands.CloneArgumentsMembers | clone_runner.py:97-99 | The clone arguments are exactly `K=V` for the non-null variables, rendered as given, without expansion. |
| Commands.CloneArgumentsConcat | clone_runner.py:97-99 | The clone arguments keep the mapping order: they distribute over concatenation. |
| Commands.BuildCloneCommand | clone_runner.py:95-99 | The append loop builds `openqa-clone-job --within-instance URL`, the flags and the arguments. |
| Commands.JobUrlReadBack | clone_runner.py:175 | `host/t<id>` starts with the host and `/t`, and the id reads back from the digits. |
| Execution.HasOutput | clone_runner.py:104 | Defines `if output:` (also at line 168): an empty output counts as none; `CloneMode.CloneRuns` and `IsoMode.PostOneReply` state what is taken only from a non-empty output. |
| Execution.Execute | clone_runner.py:77-90 | A dry run yields no output. |
| Execution.CollectSpec | clone_runner.py:93-108 | Running steps keeps each command in order, and a URL or warning is collected iff some step produced it. |
| Execution.CollectConcat | clone_runner.py:273-274 | Collecting two runs of steps joins their outcomes. |
| Execution.CollectNoUrls | clone_runner.py:104-108 | Steps that yield no URL collect none. |
| Execution.CollectNoWarnings | clone_runner.py:104-110 | Steps that warn about nothing collect no warning. |
| CloneMode.CloneVariablesAsWritten | clone_runner.py:97 | As written, clone mode fails iff the `variables` section is null. |
| CloneMode.CloneVariables | clone_runner.py:97 | Corrected: agrees with the code wherever the code works, and reads a null section as `{}` as ISO mode does. |
| CloneMode.NullVariablesInCloneMode | clone_runner.py:97 | A null section passes validation and reads as `{}` in ISO mode, but clone mode as written fails on it. The corrected reading clones without variable arguments. |
| CloneMode.CloneOne | clone_runner.py:95-108 | Defines one clone; `CloneOneParts` states it. |
| CloneMode.Clone | clone_runner.py:92-111 | Defines the clone run of a document; `CloneRuns` states it. |
| CloneMode.CloneOutput | clone_runner.py:95-103 | Defines the output of the clone of job `j`; `CloneRuns` states which URLs are taken from it. |
| CloneMode.CloneSteps | clone_runner.py:94-108 | One step per job URL. |
| CloneMode.CloneOneParts | clone_runner.py:95-108 | One clone runs its command, warns about nothing, collects only well-formed URLs, and none in a dry run. |
| CloneMode.CloneRuns | clone_runner.py:92-111 | Clone mode runs one command per job URL, in order. A URL is collected iff `extract_urls` finds it in the non-empty output of some clone. All collected URLs are well-formed, a clone never warns, and a dry run collects nothing. |
| CloneMode.RunCloneJobs | clone_runner.py:92-111 | The job loop computes the clone run. |
| IsoMode.IsoPost | clone_runner.py:113-179 | Defines `run_iso_post`; `IsoPostErrors`, `IsoPostValue`, `IsoPostRuns` and `IsoPostDryRun` state it. |
| IsoMode.VariablesOf | clone_runner.py:115 | `config.get('variables') or {}`. |
| IsoMode.MissingFrom | clone_runner.py:116 | A required name is reported iff it is not a key. |
| IsoMode.JobUrls | clone_runner.py:175 | One URL `host/t<id>` per id, in order. |
| IsoMode.ReplyStep | clone_runner.py:168-177 | Defines what a reply yields: nothing without output, `NotJson` when the reader rejects it, else the job URLs of its ids; `ReplyUrls` and `PostOneReply` state it. |
| IsoMode.PostOne | clone_runner.py:155-177 | Defines one post: merge, expand, build, execute and read the reply; `PostOneParts`, `PostOneReply` and `PostOneDry` state it. |
| IsoMode.PostOutput | clone_runner.py:160-167 | Defines the reply to the post of one merged mapping; `PostOneReply` and `IsoPostRuns` state what is taken from it. |
| IsoMode.PostOneReply | clone_runner.py:167-177 | A post collects exactly the job URLs of the ids of a non-empty reply the reader accepts, and nothing otherwise. It warns `NotJson` iff the reply is non-empty and the reader rejects it. |
| IsoMode.PostSteps | clone_runner.py:154-177 | One post per merged mapping. |
| IsoMode.IsoPostErrors | clone_runner.py:114-145 | The post fails iff a required variable is missing or the host conflicts with a flag. The missing error lists exactly the absent required names, in the required order; with none missing, a host conflict fails with the host's own error. A key with a null value counts as present. |
| IsoMode.IsoPostErrorEarly | clone_runner.py:114-145 | A failing post fails the same way whatever the executor, the reply reader and the dry-run flag. |
| IsoMode.IsoPostValue | clone_runner.py:113-179 | A successful post has resolved its host and is the run of one post step per combination on that host. |
| IsoMode.ReplyUrls | clone_runner.py:167-177 | Every URL taken from a reply is a job URL on the host. |
| IsoMode.PostOneParts | clone_runner.py:154-175 | A post runs the command of the expanded mapping and collects only job URLs on the host. |
| IsoMode.IsoPostRuns | clone_runner.py:154-179 | One command per combination, as many as the product of the list lengths, each the post command of mapping `j` after expansion. A URL is collected iff it is `host/t<id>` for an id of some non-empty reply the reader accepts, on the resolved host. `NotJson` is warned iff some non-empty reply is rejected. |
| IsoMode.PostOneDry | clone_runner.py:167-168 | A dry-run post collects no URL and no JSON warning. |
| IsoMode.IsoPostDryRun | clone_runner.py:154-177 | A dry run posts every combination but collects no URL. |
| IsoMode.Merged | clone_runner.py:154-158 | One merged mapping per pick. |
| IsoMode.MergedIsCombinations | clone_runner.py:130-158 | The loop's merged picks are the specified combinations. |
| IsoMode.RunPosts | clone_runner.py:154-177 | The combination loop, merging, expanding, building and posting, collects the post steps. |
| IsoMode.RunIsoPost | clone_runner.py:113-179 | `run_iso_post` computes `IsoPost`. |
| Output.ExtractUrls | clone_runner.py:29-32 | Defines `extract_urls`; `ExtractWellFormed`, `ExtractMatch`, `ExtractSkips` and `ExtractArrow` state it. |
| Output.SpaceRun | clone_runner.py:31 | The maximal run of `\s` at the front. |
| Output.NonSpaceRun | clone_runner.py:31 | The maximal run of `\S` at the front. |
| Output.MatchAt | clone_runner.py:31 | A match consumes at least one character. |
| Output.UrlRunWellFormed | clone_runner.py:31 | The captured run is a scheme followed by non-whitespace. |
| Output.MatchWellFormed | clone_runner.py:31 | A captured URL is well-formed. |
| Output.ExtractMatch | clone_runner.py:32 | `findall` resumes after a match, without overlap. |
| Output.ExtractWellFormed | clone_runner.py:29-32 | Every extracted URL is `http://` or `https://` followed by at least one non-whitespace character. |
| Output.NoMatchBetween | clone_runner.py:31 | Defines "no match starts at positions `i` to `k - 1`", the hypothesis of `ExtractFirst`. |
| Output.ExtractFirst | clone_runner.py:30-32 | Completeness: the scan from a position extracts the leftmost match at or after it first, and the scan resumes right after it, so no match that does not overlap an earlier one is missed. |
| Output.ExtractNone | clone_runner.py:30-32 | A text where the pattern matches at no position yields no URL. |
| Output.ExtractSkips | clone_runner.py:31-32 | Text with no arrow in it contributes no URL. |
| Output.ExtractArrow | clone_runner.py:30-32 | `... -> URL` followed by whitespace yields that URL, then what the rest yields. |
| Output.MatchArrow | clone_runner.py:31 | `->`, whitespace and a URL ending at whitespace match whole. |
| Output.UrlRunOver | clone_runner.py:31 | A well-formed URL followed by whitespace is captured whole. |
| Driver.ProcessDocument | clone_runner.py:257-271 | A document that fails validation fails. Otherwise it runs clone mode when it has jobs to clone, ISO mode when not. |
| Driver.ErrorBeforeTools | clone_runner.py:258-271 | Whether a document fails, and with which error, does not depend on the tools, their output or the dry-run flag: it is decided before any command runs. |
| Driver.ProcessDocumentsConcat | clone_runner.py:257-274 | The documents of a file run one after the other; nothing runs after a failure. |
| Driver.RunFilesConcat | clone_runner.py:245-284 | Files are independent: `a + b` is `a`, then `b` unless `a` failed. |
| Driver.RunFilesReports | clone_runner.py:256-283 | Each URL file holds the URLs of one configuration file's own documents, goes where that file says, and is never empty. A dry run writes nothing. |
| Driver.Progresses | clone_runner.py:245-274 | One progress per file, in file order (`ProgressAt`); `RunFilesWritten` states what the run writes in terms of it. |
| Driver.Candidates | clone_runner.py:276-283 | One URL file per file, in file order (`CandidateAt`); `RunFilesWritten` states which are written. |
| Driver.Writes | clone_runner.py:245-276 | Defines when the URL file of file `i` is written: no dry run, no failure at or before file `i`, and URLs from file `i`. |
| Driver.WrittenFrom | clone_runner.py:276-283 | Defines the written URL files from a position on, in file order; `WrittenMembers`, `WrittenShift` and `WrittenNone` state its properties. |
| Driver.WrittenNone | clone_runner.py:246-254 | When the first file fails, nothing is written. |
| Driver.WrittenShift | clone_runner.py:245-276 | Past a first file that does not fail, what is written is what the remaining files write. |
| Driver.WrittenMembers | clone_runner.py:276-283 | A URL file is written iff it belongs to a file, at or after the position, that is written. |
| Driver.ProgressAt | clone_runner.py:245-274 | Entry `i` of the progresses is file `i` run on its own. |
| Driver.CandidateAt | clone_runner.py:277 | Entry `i` of the candidates is the URL file of file `i`, named by `OutputPath`. |
| Driver.WritesShift | clone_runner.py:245-276 | Past a first file that does not fail, file `i` is written iff it is written as file `i - 1` of the remaining files. |
| Driver.RunFilesWritten | clone_runner.py:245-283 | The URL files of a run are exactly, once each and in file order, those of the files that finish before any failure, outside a dry run, with job URLs. A URL file is written iff it is of such a file. |
| Driver.ProcessDocuments | clone_runner.py:256-274 | Defines the document loop of one file: each document in order, stopping at the first failure; `ProcessDocumentsConcat` states it and `RunFile` computes it. |
| Driver.FileProgress | clone_runner.py:245-274 | Defines one file: path check, loading, documents; `RunFile` computes it and `RunFilesConcat` composes it. |
| Driver.RunFiles | clone_runner.py:245-284 | Defines the whole run; `RunFilesConcat`, `RunFilesReports` and `RunFilesWritten` state it. |
| Driver.RunAll | clone_runner.py:245-284 | Defines the whole run over the command line's files, with their count deciding `-o`; `Run` computes it and `RunFilesWritten`, `RunFilesReports` and `RunFilesConcat` state it. |
| Driver.FileReport | clone_runner.py:276-277 | Defines the write condition of one file: no failure, no dry run and some URLs; `RunFilesWritten` and `RunFilesReports` state it over a run. |
| Driver.ReportFor | clone_runner.py:277-281 | Defines the URL file of one file: its `OutputPath` and its documents' URLs; `CandidateAt` and `RunFilesWritten` state it. |
| Driver.LastIndex | clone_runner.py:277 | The last position of a character, or -1. |
| Driver.LastIndexSkip | clone_runner.py:277 | A character absent from the tail has its last position in the front. |
| Driver.Stem | clone_runner.py:277 | Defines `PurePath.stem`; `StemOf` states it. |
| Driver.UrlsFileName | clone_runner.py:277 | Defines the default URL file; `UrlsFileNameOf` and `UrlsFileNameIn` state it. |
| Driver.OutputPath | clone_runner.py:277 | Defines where a file's URLs go: `-o` with a single file, else the default URL file; `RunFilesReports` states it. |
| Driver.UrlsFileNameOf | clone_runner.py:277 | `dir/stem.ext` gets the URL file `dir/stem.urls.txt`. |
| Driver.UrlsFileNameIn | clone_runner.py:277 | The URL file of `dir/name` is in `dir` and named after the stem. |
| Driver.StemOf | clone_runner.py:277 | The stem drops the last suffix. |
| Driver.RunDocument | clone_runner.py:258-271 | The per-document body computes `ProcessDocument`. |
| Driver.RunFile | clone_runner.py:246-274 | The path check, loading and document loop of one file compute the file's progress. |
| Driver.Run | clone_runner.py:245-284 | The per-file loop of `main` computes the whole run: outcome, URL files and failure. |
| Scenarios.ValidVariablesPass | test_clone_runner.py:10-21 | Upper-case keys with strings, a list of strings and an int pass. |
| Scenarios.EmptyVariablesPass | test_clone_runner.py:23-26 | The empty mapping passes. |
| Scenarios.LowercaseKeyRefused | test_clone_runner.py:28-36 | The key `arch` is refused as not upper-case. |
| Scenarios.EmptyStringRefused | test_clone_runner.py:38-46 | `ARCH: ''` is refused as an empty string. |
| Scenarios.EmptyInListRefused | test_clone_runner.py:48-56 | `FLAVORS: ['DVD', '']` is refused for the empty string in the list. |
| Scenarios.NonStringValuesPass | test_clone_runner.py:58-68 | An int, a boolean and a float pass. |
| Scenarios.UpperEntry | clone_runner.py:38-44 | An entry under a key without lower-case letters, holding neither `""` nor a list with `""`, passes. |
| Scenarios.AllAcceptable | clone_runner.py:37-44 | A mapping of such entries passes. |
| Scenarios.EmptyInListEntry | clone_runner.py:42-44 | A list holding `""` under such a key is refused for that. |
| Scenarios.RefSubstitute | clone_runner.py:57 | A lone token becomes `str()` of its value, or stays when undefined. |
| Scenarios.RefNames | clone_runner.py:71 | A lone token's name is the only name found. |
| Scenarios.RefDefined | clone_runner.py:72-73 | A lone token naming a key gives no warning. |
| Scenarios.SelfRefPass | clone_runner.py:54-61 | `A: '%A%'`: the first pass changes nothing. |
| Scenarios.SelfRefWarnings | clone_runner.py:68-73 | `A: '%A%'` gives no warning. |
| Scenarios.SelfReference | clone_runner.py:46-75 | `A: '%A%'` is a fixed point with no warning at all. |
| Scenarios.MutualStep | clone_runner.py:55-60 | `A: '%B%', B: '%A%'`: A takes B's value `%A%`. |
| Scenarios.SettledSteps | clone_runner.py:55-60 | In `A = B = '%A%'` neither entry changes. |
| Scenarios.MutualFirstPass | clone_runner.py:54-60 | The first pass rewrites A only. |
| Scenarios.MutualSecondPass | clone_runner.py:54-63 | The second pass changes nothing. |
| Scenarios.MutualWarnings | clone_runner.py:68-73 | The settled state warns about nothing. |
| Scenarios.MutualReference | clone_runner.py:46-75 | `A: '%B%', B: '%A%'` settles at `A = B = '%A%'` with no warning. |
| Scenarios.GrowingPass | clone_runner.py:54-60 | `K: p + '%K%'`: each pass doubles the prefix. |
| Scenarios.GrowingStep | clone_runner.py:53-63 | A busy pass hands the doubled mapping to the next one. |
| Scenarios.GrowingHitsLimit | clone_runner.py:52-63 | A growing value exhausts any budget. |
| Scenarios.GrowingWarns | clone_runner.py:52-66 | `A: 'x%A%'` hits the iteration limit and warns. |
| Scenarios.NotContainsMissingChar | clone_runner.py:140 | A string lacking a character of `t` does not contain `t`. |
| Scenarios.O3HostUnderOsdRefused | clone_runner.py:140-142 | The openSUSE address conflicts with `--osd`. |
| Scenarios.O3Default | clone_runner.py:146-151 | No host and `--o3` gives the public instance. |
| Scenarios.PrependPair | clone_runner.py:133 | Prefixing two elements lays out two blocks. |
| Scenarios.ProductOfTwoPairs | clone_runner.py:133 | `product([a, b], [c, d])` is `ac, ad, bc, bd`. |
| Scenarios.CloneOutputLine | clone_runner.py:29-32 | A tool line `... -> URL` yields exactly that URL. |

## Left out

- YAML tokenizing and parsing. Documents arrive parsed, each mapping node reduced to its (key, line) sequence. YAML errors other than duplicate keys carry the parser's text.
- Running commands (`subprocess.run`), capturing their output and errors, and the `[DRY RUN]` line. The executor is a parameter.
- JSON decoding of a post's reply, and `.get('ids', [])` on a reply that is not an object. The decoded ids are a parameter.
- Every `print`. Warnings and errors are returned values. The message texts are in `Diagnostics.Message` and are not proved about.
- argparse, `print_help_page` and the exit codes of `main` (clone_runner.py:181-243). The `-o` warning for several files is a print only.
- The file-existence check and writing the URL file: a file arrives as present with its documents, or absent. The written files are values (`Report`).
- `pathlib` details beyond the last path component: normalisation, `..` and Windows paths.
- `\w`, `\s` and `str.upper` beyond ASCII.
- Python's `repr` of a list in clone mode (clone_runner.py:99). It is a parameter.
- Floats and other scalars the runner never inspects. They carry their `str()` text.
- `flags` or `jobs_to_clone` given as null, or as anything other than a list of strings. The model reads them as lists.
- Expansion.UndefinedNames: Python iterates a `set`, whose order is unspecified. The model fixes first-occurrence order, and only membership and the absence of repeats are proved.
- CloneMode.Clone: reads a null `variables` section in clone mode as `{}`, where the source raises `AttributeError` at clone_runner.py:97 and the run ends (see Findings). The as-written behaviour is `CloneMode.CloneVariablesAsWritten`.
- CloneMode.CloneOutput: reads a null `variables` section in clone mode as `{}`, where the source raises `AttributeError` at clone_runner.py:97 and the run ends (see Findings). The as-written behaviour is `CloneMode.CloneVariablesAsWritten`.
- CloneMode.CloneRuns: reads a null `variables` section in clone mode as `{}`, where the source raises `AttributeError` at clone_runner.py:97 and the run ends (see Findings). The as-written behaviour is `CloneMode.CloneVariablesAsWritten`.
- CloneMode.RunCloneJobs: reads a null `variables` section in clone mode as `{}`, where the source raises `AttributeError` at clone_runner.py:97 and the run ends (see Findings). The as-written behaviour is `CloneMode.CloneVariablesAsWritten`.
- Driver.ProcessDocument: reads a null `variables` section in clone mode as `{}`, where the source raises `AttributeError` at clone_runner.py:97 and the run ends (see Findings). The as-written behaviour is `CloneMode.CloneVariablesAsWritten`.
- Driver.ErrorBeforeTools: reads a null `variables` section in clone mode as `{}`, where the source raises `AttributeError` at clone_runner.py:97 and the run ends (see Findings). The as-written behaviour is `CloneMode.CloneVariablesAsWritten`.
- Driver.RunDocument: reads a null `variables` section in clone mode as `{}`, where the source raises `AttributeError` at clone_runner.py:97 and the run ends (see Findings). The as-written behaviour is `CloneMode.CloneVariablesAsWritten`.
- Driver.FileProgress: reads a null `variables` section in clone mode as `{}`, where the source raises `AttributeError` at clone_runner.py:97 and the run ends (see Findings). The as-written behaviour is `CloneMode.CloneVariablesAsWritten`.
- Driver.RunFile: reads a null `variables` section in clone mode as `{}`, where the source raises `AttributeError` at clone_runner.py:97 and the run ends (see Findings). The as-written behaviour is `CloneMode.CloneVariablesAsWritten`.
- Driver.RunFiles: reads a null `variables` section in clone mode as `{}`, where the source raises `AttributeError` at clone_runner.py:97 and the run ends (see Findings). The as-written behaviour is `CloneMode.CloneVariablesAsWritten`.
- Driver.ProcessDocumentsConcat: reads a null `variables` section in clone mode as `{}`, where the source raises `AttributeError` at clone_runner.py:97 and the run ends (see Findings). The as-written behaviour is `CloneMode.CloneVariablesAsWritten`.
- Driver.RunFilesConcat: reads a null `variables` section in clone mode as `{}`, where the source raises `AttributeError` at clone_runner.py:97 and the run ends (see Findings). The as-written behaviour is `CloneMode.CloneVariablesAsWritten`.
- Driver.RunFilesReports: reads a null `variables` section in clone mode as `{}`, where the source raises `AttributeError` at clone_runner.py:97 and the run ends (see Findings). The as-written behaviour is `CloneMode.CloneVariablesAsWritten`.
- Driver.RunFilesWritten: reads a null `variables` section in clone mode as `{}`, where the source raises `AttributeError` at clone_runner.py:97 and the run ends (see Findings). The as-written behaviour is `CloneMode.CloneVariablesAsWritten`.
- Driver.Run: reads a null `variables` section in clone mode as `{}`, where the source raises `AttributeError` at clone_runner.py:97 and the run ends (see Findings). The as-written behaviour is `CloneMode.CloneVariablesAsWritten`.
- Driver.RunAll: reads a null `variables` section in clone mode as `{}`, where the source raises `AttributeError` at clone_runner.py:97 and the run ends (see Findings). The as-written behaviour is `CloneMode.CloneVariablesAsWritten`.
- Driver.Progresses: reads a null `variables` section in clone mode as `{}`, where the source raises `AttributeError` at clone_runner.py:97 and the run ends (see Findings). The as-written behaviour is `CloneMode.CloneVariablesAsWritten`.
- Driver.Candidates: reads a null `variables` section in clone mode as `{}`, where the source raises `AttributeError` at clone_runner.py:97 and the run ends (see Findings). The as-written behaviour is `CloneMode.CloneVariablesAsWritten`.
- Input shapes the document type cannot express, on which the source raises: a document that is neither a mapping nor null (`config.get` at clone_runner.py:258); `variables` given as a list, a string or a non-zero number (`.items()` at clone_runner.py:37 or 97); `variables: false` or `0` (passes the check at clone_runner.py:35 and reads as `{}` at 115, but raises at 97 in clone mode); a key that is not a string (`key.upper()` at clone_runner.py:38); a `host` that is not a string (clone_runner.py:140 and 152). Keys are strings, `variables` is absent, null or a mapping, and `host` is absent or a string.

## Findings

| source | as written | input that shows it | evidently intended | confidence | as-written member | corrected member |
|---|---|---|---|---|---|---|
| clone_runner.py:97 | clone mode iterates `variables.items()` with `variables = config.get('variables', {})`, which is `None` for a null section | a document with `jobs_to_clone: [url]` and `variables:` left empty (null) | read a null section as `{}`, as validation (clone_runner.py:35) and ISO mode (clone_runner.py:115) do, and clone without variable arguments | not executed | CloneMode.CloneVariablesAsWritten | CloneMode.CloneVariables |
