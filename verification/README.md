# Verified model of the inference command line's algorithms

A Dafny 4.11 project that models the self-contained algorithms of the repository and proves what they promise.
`dafny verify dfyconfig.toml` checks all of it. Every source path below is relative to the repository's root.

| files | what they model |
|---|---|
| `Wrappers.dfy`, `Arithmetic.dfy`, `Grammar.dfy`, `Numerals.dfy` | shared results and arithmetic; GBNF as an abstract syntax with a derivation relation; decimal numerals and their orders |
| `IntRange.dfy`, `MinimumTexts.dfy`, `IntRangeExact.dfy` | the grammar emitted for integer bounds, what it accepts digit by digit, and when it is exact |
| `NotStrings.dfy`, `ForbiddenKeys.dfy` | the trie of forbidden keys and the rule written from it; which keys that rule accepts |
| `Repetition.dfy`, `SchemaConverter.dfy`, `ObjectTexts.dfy` | bounded lists, the rule table, object rules and the texts they derive |
| `KvCache.dfy`, `Generation.dfy` | positions in the KV cache, Self-Extend, context shift, the generation loop |
| `Tensor.dfy`, `Lora.dfy`, `LoraAxes.dfy`, `LoraParts.dfy`, `LoraIndexing.dfy`, `LoraJoins.dfy`, `TensorMeanings.dfy`, `AttentionRows.dfy` | row-major tensors, factored weights and every operation on them, what these come to element by element, the reordering of attention rows |
| `LogProtocol.dfy`, `LogQueue.dfy` | the asynchronous log as a state machine, and the ring buffer that refines it |
| `NgramCache.dfy`, `NgramFile.dfy`, `Draft.dfy`, `DraftStages.dfy` | the n-gram index, its file, drafting and its three stages |
| `Base64.dfy`, `Escapes.dfy`, `LineEditor.dfy` | the codecs that rewrite bytes, two of them in place |
| `TrainBatch.dfy`, `Experts.dfy` | the training batch builder and the collector of expert tensors |

Code that updates state is a class, or a method with loops, proved against a functional specification; the lemmas are
about that specification. Where the code falls short of what its comments or its callers expect, the code is modelled as
it is, and an if-and-only-if lemma says when it meets the expectation:

- *Both integer bounds.* A given maximum of 2147483647 and a given minimum of -2147483648 read as missing, and negating a
  minimum of -2147483647 yields the value that stands for "no maximum"; that bound is then dropped, and with it all
  precision on its side, or the compilation throws. With every other pair in order the grammar is exact
  (`BothBoundsExact`). With the minimum above the maximum nothing should be accepted; that is so only if the two have one
  sign and differ in their last digit alone (`IntegerRule`, `BuildMinMaxInt`). Otherwise a maximum that is not negative is
  itself accepted (`MaximumMisread`), and `Misread` says what else is.
- *One integer bound.* A minimum is exact if and only if no inner digit of it is 0 or 1: the recursion reads the digits
  behind the first one as a number, which forgets leading zeros, and strings that are longer by one digit are lost behind
  a 1 (`MinimumOnlyExact`). A negative maximum is exact only with a leading 1 and at least two digits
  (`MaximumOnlyExact`). The unbounded side stops at 16 digits. `MinimumTexts` says for every minimum what is accepted:
  a minimum of 105 lets "15" through (`InnerZeroForgotten`).
- *Bound keywords.* Beside an inclusive keyword the exclusive one of the same side is not looked at, so both are kept if
  and only if the exclusive one is not the tighter one (`LowerKeywordsKept`, `UpperKeywordsKept`).
- *Forbidden keys.* Without a caret among them the rule accepts a key if and only if it is no prefix of a forbidden one
  and no class along it overreaches, so a key that merely prefixes a forbidden key is lost although the comment above the
  code promises it; a dash among the forbidden characters forms a range inside the negated class; and if the empty key is
  the only forbidden one it is the only accepted one. The class written for a caret reads as no symbol at all, so the walk
  skips it: forbidding `^` forbids nothing (`CaretAccepted`), and forbidden keys without a dash are all rejected if and
  only if none has a caret (`CaretsDecide`). A closing bracket in a forbidden key makes the rule unreadable
  (`NotStringsRule`). `KeyCharacterised`, `MembersRejected` and `DocumentedPromise` say all this in general.
- *Lists.* A separated list of at most zero items is written with the upper bound -1, which the parser refuses
  (`ReadableUnlessMaximumZero`), and a minimum above the maximum is read as exactly the minimum; with all other bounds that
  are not negative the numbers of items are the ones asked for (`CountsExact`).
- *Objects.* A property named `*` may be repeated (`AtMostOnceUnlessStar`), and where additional properties are allowed it
  loses its own key and value to theirs, even if it is required (`WordsKept`).
- *Log.* `pause()` pushes its end marker without growing the ring. If it finds the ring one entry short of full, the ring
  then reads as empty, the worker waits for ever and `pause()` never returns (`RunExact`, `StuckForever`); such a state is
  reachable with a ring of any size (`FullPauseReachable`).
- *Factored weights.* Slicing the first axis of a pair with more than two axes is right only along an axis that A has in
  full, or if the slice takes the only position of an axis of length one, or nothing (`SliceExact`); a number on it only
  along such an axis, or at one of its ends (`SelectExact`); a tuple index is right only if it cuts no axis that A has in
  full (`TupleExact`), and an ellipsis in front of other subscripts only if it stands for half of the axes, or for more with
  nothing but slices of whole axes behind it (`EllipsisExact`); concatenation needs A in full, or a single pair
  (`CatExact`). Numbers off their axis, a number on the rows or on the columns, and an ellipsis that stands for less than
  half of the axes are refused. In the remaining cases the code returns a pair whose factors no longer fit, or the wrong
  part, without an error; so it does, by accident, for numbers on both the rows and the columns if an axis that is left is
  as long as the rank (`NumberedTuple`).
- *Drafting.* A token of the strict stage is the majority continuation of its n-gram, but which token a stage drafts, and
  whether it drafts one, can hang on the order in which a hash map is walked, in the strict stage and in the lax one that
  comes first (`TieDecides`): for one n-gram if and only if two continuations tie at the top and one of them passes
  (`OrderDecides`), for a stage if and only if that happens at an n-gram that is reached, and a second token may pass there
  or the shorter n-grams need not give the same one (`StageHangsOnOrder`). If no such tie is met on the way, the whole draft
  is determined (`DraftDetermined`).
- *Base 64.* Decoding under the other alphabet succeeds if the two differing characters do not occur (`RoundTrip`).

## Model

| member | source | states |
|---|---|---|
| IntRange.UniformRange | common/json-schema-to-grammar.cpp:114-168 | The recursive split of two digit strings: in order and equally long, it emits a grammar that accepts exactly the digit strings of that length lexicographically between them; in any order and length, exactly what a closed form behind the common prefix says, which is nothing if and only if only the last characters differ, the wrong way round |
| IntRange.SplitRange | common/json-schema-to-grammar.cpp:131-166 | Behind the common prefix the low, middle and high alternatives together accept, in the right order, the upper bound and the digits from the lower one on that come before it; in the wrong order, what shares the first digit of one bound and keeps to it |
| Numerals.LexLeIsNumeric | common/json-schema-to-grammar.cpp:114-168 | On equally long digit strings the lexicographic order the split works by is the numeric one |
| IntRange.NonNegativeRange | common/json-schema-to-grammar.cpp:185-195 | The loop over digit counts accepts exactly the canonical numerals of the integers from min to max; with max below min exactly the misread strings, of which there are none if and only if the two differ in the last digit only |
| IntRange.MaximumMisread | common/json-schema-to-grammar.cpp:114-195 | With a minimum above a maximum that is not negative the maximum is accepted, unless the two differ in the last digit only |
| IntRange.MinimumOnly | common/json-schema-to-grammar.cpp:199-249 | What a lone minimum emits, for every minimum, number of decimals left and nesting level, and that it throws exactly when the sentinel collides |
| IntRange.MaximumOnly | common/json-schema-to-grammar.cpp:251-265 | What a lone maximum emits, for every maximum |
| IntRange.BuildMinMaxInt | common/json-schema-to-grammar.cpp:86-268 | The whole recursion with its INT_MIN and INT_MAX sentinels: it terminates, throws exactly when both bounds are sentinels there or in its recursive call, and otherwise accepts a language given by recursion on the bounds, in whatever order they are; with the minimum above the maximum that is empty if and only if they have one sign and differ in the last digit only |
| MinimumTexts.DropIsRemainder | common/json-schema-to-grammar.cpp:239 | Dropping the leading digit of a number leaves its remainder by the power of ten of that digit |
| MinimumTexts.MinimumTexts | common/json-schema-to-grammar.cpp:199-249 | What a minimum accepts, without recursion: the text agrees with the digits of the minimum, zeros between the first and the last one skipped, up to the first digit that differs or the last one; then a smaller digit must be followed by at least as many digits as the minimum has from there on, and by none behind a 1, a greater one by as many as the minimum has behind it, a last one by as many as there is room for |
| MinimumTexts.LoneBoundEmitted | common/json-schema-to-grammar.cpp:199-265 | These are the texts accepted for a lone minimum that is not negative and, behind a minus sign, for a lone negative maximum |
| MinimumTexts.DroppedMinimumEmitted | common/json-schema-to-grammar.cpp:170-176 | And for a negative maximum beside a minimum of -INT_MAX, which is lost when it is negated |
| MinimumTexts.InnerZeroForgotten | common/json-schema-to-grammar.cpp:226-249 | A minimum of 105 refuses "13" and accepts "15" |
| IntRangeExact.BothBoundsExact | common/json-schema-to-grammar.cpp:86-197 | Two given bounds in order: the accepted strings are exactly the JSON integers in range (plus "-0" if the minimum is negative) if and only if the minimum is above -INT_MAX and the maximum below INT_MAX |
| IntRangeExact.MinimumOnlyExact | common/json-schema-to-grammar.cpp:199-249 | A lone minimum is exact, up to 16 digits on the open side, if and only if it is negative or none of its inner digits is 0 or 1 |
| IntRangeExact.MaximumOnlyExact | common/json-schema-to-grammar.cpp:251-265 | A lone maximum is exact if and only if it is non-negative or its magnitude has two or more digits, a leading 1 and no inner 0 or 1 |
| IntRangeExact.IntegerRule | common/json-schema-to-grammar.cpp:990-1005 | The four bound keywords of an integer schema: exclusive bounds move by one; with a lower and an upper keyword in any order, with a lower one only, and with an upper one only, the rule is the one wanted if and only if a condition on the bounds holds; and when it throws |
| IntRangeExact.LowerKeywordsKept | common/json-schema-to-grammar.cpp:993-997 | The integers from the lower bound on are those that satisfy minimum and exclusiveMinimum, if and only if they are not both given with the exclusive one at or above the other |
| IntRangeExact.UpperKeywordsKept | common/json-schema-to-grammar.cpp:998-1002 | The same for maximum and exclusiveMaximum |
| IntRangeExact.WrongOrderExample | common/json-schema-to-grammar.cpp:114-195 | From 21 up to 13 the numbers from 10 to 13 and from 21 to 29 are accepted, and nothing else |
| NotStrings.Trie.Insert | common/json-schema-to-grammar.cpp:627-645 | The trie holds exactly the prefixes of the inserted strings, with the ends marked |
| NotStrings.Trie.Visit | common/json-schema-to-grammar.cpp:650-675 | The alternatives written for an inner node, read as the parser reads them, accept exactly the continuations of the language defined over the forbidden set; they are unreadable exactly if a class for a closing bracket is written |
| NotStrings.NotStringsRule | common/json-schema-to-grammar.cpp:625-684 | The emitted rule is readable if and only if no forbidden key has a closing bracket, and then accepts a quoted plain key if and only if the language defined over the forbidden set does |
| ForbiddenKeys.KeyCharacterised | common/json-schema-to-grammar.cpp:617-684 | That language in closed form: the empty key is accepted if and only if it is not forbidden, another one if and only if it leaves, with carets skipped, the paths of the trie at a character that its node does not reject; without carets, if and only if it prefixes no forbidden key and no class along it overreaches |
| ForbiddenKeys.MembersRejected | common/json-schema-to-grammar.cpp:617-684 | No forbidden key is accepted, if and only if the set is not just the empty key and no key gets past its own path by skipping carets |
| ForbiddenKeys.CaretsDecide | src/llama-grammar.cpp:413-441 | Without a dash in the forbidden keys: if and only if the set is not just the empty key and no key has a caret |
| ForbiddenKeys.CaretAccepted | src/llama-grammar.cpp:413-441 | Forbidding the caret forbids nothing: every key is accepted, the caret included |
| ForbiddenKeys.DocumentedPromise | common/json-schema-to-grammar.cpp:617-624 | The comment's promise, all strings but the given ones, holds if and only if some given string is non-empty, none has a caret, the set contains the non-empty prefixes of its members, and its classes are readable and hold no accidental range |
| ForbiddenKeys.DashFreeClassesExact | common/json-schema-to-grammar.cpp:669-674 | Without a dash in the forbidden strings the negated classes exclude nothing else, provided no string has a closing bracket |
| ForbiddenKeys.ProperPrefixLost | common/json-schema-to-grammar.cpp:622-623 | The comment's own second example rejects "an" |
| ForbiddenKeys.DashRangeLost | common/json-schema-to-grammar.cpp:669-674 | Forbidding "-" and "a" also rejects "B" |
| NotStrings.CharMeaning | common/json-schema-to-grammar.cpp:287 | The primitive rule for a character accepts one that is neither a quote, a backslash nor a control character, or an escape by a letter or by four hexadecimal digits |
| NotStrings.PlainNeedsNoEscape | common/json-schema-to-grammar.cpp:287 | The plain characters, of which the keys here consist, are the ASCII ones that stand for themselves in a JSON string |
| Repetition.RepetitionMeaning | common/json-schema-to-grammar.cpp:19-41 | A repetition with a separator that the parser can read accepts exactly the separated lists whose number of items is among those it reads from the bounds |
| Repetition.CountsExact | src/llama-grammar.cpp:347-398 | The repetition can be read and those numbers are the ones asked for, if and only if the minimum is not negative and not above the maximum, and with a separator the maximum is not zero |
| Repetition.ReadableUnlessMaximumZero | common/json-schema-to-grammar.cpp:36 | The parser can read the repetition, if and only if no bound is negative and, with a separator, the maximum is not zero |
| Repetition.PlainRepetitionMeaning | common/json-schema-to-grammar.cpp:26-33 | Without a separator, a readable repetition with its bounds in order derives as many items as are asked for |
| Repetition.BoundedLength | common/json-schema-to-grammar.cpp:985-989 | A string of bounded length is any word over its characters that is neither too short nor too long |
| SchemaRules.SchemaConverter.AddRule | common/json-schema-to-grammar.cpp:400-414 | No name is ever bound anew, the returned name is bound to the rule, and the chosen number is the first free one |
| SchemaRules.FirstFree | common/json-schema-to-grammar.cpp:405-409 | The search for a free number ends |
| SchemaRules.RunBecomesDash | common/json-schema-to-grammar.cpp:311 | In a rule name every run of characters that no name may hold becomes a single dash, and what stands around it is escaped on its own |
| SchemaRules.EscapedCharacters | common/json-schema-to-grammar.cpp:311 | Letters, digits and dashes are the characters a name may hold |
| SchemaRules.SchemaConverter.GetRecursiveRefs | common/json-schema-to-grammar.cpp:751-773 | The chain of references, with the rules it adds on the way, derives exactly the choices among the names in order |
| SchemaRules.SchemaConverter.BuildObjectRule | common/json-schema-to-grammar.cpp:697-788 | The object rule derives exactly the required members in order, then a choice of the optional ones, with commas exactly between members |
| SchemaRules.ObjectLanguage | common/json-schema-to-grammar.cpp:737-788 | The same over all derivation depths, both directions |
| SchemaRules.SelectionIsSubsequence | common/json-schema-to-grammar.cpp:776-782 | Without additional properties, a choice is a subsequence of the optional names |
| SchemaRules.StarComesLast | common/json-schema-to-grammar.cpp:733-734 | With additional properties, a choice is such a subsequence followed by any number of additional members |
| SchemaRules.AtMostOnceUnlessStar | common/json-schema-to-grammar.cpp:759-762 | Optional members occur at most once if and only if no property is named like the marker of additional ones |
| SchemaRules.WordsKept | common/json-schema-to-grammar.cpp:708-734 | Every property keeps its own key and value, if and only if no additional properties are allowed or none is named like their marker; no other property is ever replaced |
| ObjectTexts.RequiredPicked | common/json-schema-to-grammar.cpp:715-719 | The required list holds the names of exactly the properties that the schema requires, in the order of the properties |
| ObjectTexts.OptionalPicked | common/json-schema-to-grammar.cpp:715-719 | The optional list holds those of the others, in their order |
| ObjectTexts.RequiredNames | common/json-schema-to-grammar.cpp:715-719 | A name is in the required list if and only if some property has it and it is required |
| ObjectTexts.OptionalNamesOnly | common/json-schema-to-grammar.cpp:715-719 | A name is in the optional list if and only if some property has it and it is not required |
| ObjectTexts.TextsDerived | common/json-schema-to-grammar.cpp:697-788 | The rule derives exactly the texts with all required properties, then some of the others, each group in order, then additional members where they are allowed; stated without the two lists, for all properties unless an optional one is named like the marker of additional members |
| ObjectTexts.RequiredAlone | common/json-schema-to-grammar.cpp:737-743 | The text of the required properties alone is derived |
| ObjectTexts.RequiredOnce | common/json-schema-to-grammar.cpp:697-788 | Every derived text lists properties and additional members only, and each required property exactly once |
| ObjectTexts.TwoProperties | common/json-schema-to-grammar.cpp:697-788 | With a required and an optional property the rule derives two texts, written out symbol by symbol |
| ObjectTexts.TwoAdditional | common/json-schema-to-grammar.cpp:723-735 | With additional members only, none or two of them are derived, written out symbol by symbol |
| KvCaches.RangesHalfOpen | src/llama.cpp:3938-3969 | The lower end of a range of positions belongs to it and the upper one does not; a negative end leaves it open |
| KvCaches.CompressGroup | lac.cpp:783-801 | One execution of the loop body takes the cache with k compressed groups to the one with k + 1, and lowers n_past - ga_i by ga_w |
| KvCaches.SelfExtend | lac.cpp:781-803 | The loop ends with exactly N / ga_w groups compressed, N being the number of tokens so far |
| KvCaches.ClosedForm | lac.cpp:781-803 | Position of every token, ga_i and n_past after k groups, in closed form |
| KvCaches.ExtendedOrder | lac.cpp:781-803 | Positions are monotone in the tokens, and two tokens share one if and only if they lie in the same compressed group of ga_n |
| KvCaches.ExtendedBounds | lac.cpp:781-803 | Every position lies from 0 to n_past - 1 |
| KvCaches.GroupSharesPosition | lac.cpp:781-803 | The i-th group of ga_n tokens sits at position i |
| KvCaches.DecodeKeepsExtended | lac.cpp:827-840 | Tokens appended between compressions keep the closed form |
| KvCaches.ShiftWindow | lac.cpp:762-771 | Removing and moving down keeps the cache a window on the history: the kept tokens and a suffix |
| KvCaches.WindowPositions | lac.cpp:762-771 | The positions of a window are 0 to n_past - 1, once each |
| KvCaches.WindowContents | lac.cpp:762-771 | Read by position, the cache is the first n_keep tokens followed by a suffix of the history |
| KvCaches.TowardZero | lac.cpp:762-763 | Half of a negative number of tokens is taken toward zero, as the division of the source does |
| Generation.Generator.Shift | lac.cpp:762-771 | A context shift drops half of what lies behind the kept tokens |
| Generation.Generator.Decode | lac.cpp:827-840 | Batched evaluation appends all tokens at the next positions |
| Generation.Generator.Predict | lac.cpp:731-848 | An iteration: truncation to the context, the choice between stopping, shifting and extending, evaluation; new counters and history |
| Generation.KeepCountMeans | lac.cpp:541-545 | A negative number of tokens to keep, or one beyond the prompt, keeps the prompt; another one keeps a begin token besides |
| Generation.RunStep | lac.cpp:731-848 | In a non-interactive run an iteration shifts at most once, every shift drops at least one token, and nothing is truncated |
| Generation.Run | lac.cpp:729-898 | Over whole non-interactive runs n_past stays below n_ctx; what was decoded is a prefix of the prompt followed by the samples, and lacks at most the last of them; the samples are those of consecutive iterations from the one in which the prompt's batches are through, never more than asked for, and with no other reason to stop exactly as many |
| LogProtocol.RunExact | common/log.cpp:161-293 | Over every interleaving: printed, in hand and queued messages stay exactly the accepted ones in order, and the end marker stays last, if and only if no pause finds the ring one entry short of full |
| LogProtocol.PausedMeansPrinted | common/log.cpp:271-293 | In every run from the start, whenever pause() returns, from the join or at once because the log is paused already, everything accepted has been printed in order |
| LogProtocol.WorkerEnds | common/log.cpp:247-268 | From any such state in which a controller waits, the worker's own steps print everything and release it |
| LogProtocol.WorkerDrains | common/log.cpp:247-268 | From every state of the invariant the worker's own steps lead to one where everything accepted is printed, with the worker idle in a running log and ended in a paused one |
| LogProtocol.AddOnlyWhileRunning | common/log.cpp:161-236 | A running log accepts a message behind all others, doubling the ring when it fills; a paused one drops it |
| LogProtocol.PauseStops | common/log.cpp:271-293 | A pause stops a running log until it is resumed |
| LogProtocol.ResumedRuns | common/log.cpp:238-245 | In every reachable state in which the controller can resume, it ends up with a running log and a worker that has not ended, nothing being lost |
| LogProtocol.ResumedPrints | common/log.cpp:238-268 | A message added then is accepted, and worker steps print it behind everything else |
| LogProtocol.PauseThenResume | common/log.cpp:295-309 | Pausing a log that is not one entry short of full, waiting for the worker and resuming can always be done, and leaves it running with everything printed |
| LogProtocol.PrintedIsPrefix | common/log.cpp:247-268 | At every moment of every run from the start the printed messages are a prefix of the accepted ones |
| LogProtocol.StuckForever | common/log.cpp:281-292 | After a pause on a ring one entry short of full, no continuation lets pause() return |
| LogProtocol.FullPauseReachable | common/log.cpp:281-292 | Such a pause is possible with every ring size |
| LogQueue.GptLog.Add | common/log.cpp:161-236 | The ring with its growth by doubling refines the protocol's append, so a non-empty queue never reads as empty |
| LogQueue.GptLog.Grow | common/log.cpp:212-233 | Moving a full ring into one of twice the size keeps the order of the queue |
| LogQueue.GptLog.Take | common/log.cpp:249-260 | The worker's locked section refines the protocol's take |
| LogQueue.GptLog.Pause | common/log.cpp:271-290 | The locked section of pause() refines the protocol's step, lost queue included |
| LogQueue.GptLog.Resume | common/log.cpp:238-245 | resume() refines the protocol's step |
| NgramCache.NgramInjective | common/ngram-cache.h:24-28 | Padding with -1 makes keys of non-negative tokens injective |
| NgramCache.Update | common/ngram-cache.cpp:11-51 | A cache that counts the old tokens counts all tokens afterwards, for every range of n-gram sizes |
| NgramCache.CountsAreSightings | common/ngram-cache.cpp:11-51 | What is counted: how often a token stood right behind the n-gram, in each size of the range and no other |
| NgramCache.RecountIsUnique | common/ngram-cache.h:60-68 | The incrementally kept cache equals a full recount as a map |
| NgramCache.Merge | common/ngram-cache.cpp:260-285 | Merging is the pointwise sum, in whatever order the maps are walked, and keeps caches well-formed |
| NgramCache.MergeCommutes | common/ngram-cache.cpp:260-285 | Merging either cache into the other gives the same map |
| NgramFiles.Save | common/ngram-cache.cpp:199-220 | The file lists every n-gram and every count once, in some order, whatever order the maps are walked in |
| NgramFiles.Load | common/ngram-cache.cpp:222-258 | Loading computes the reading function, failed assertions included |
| NgramFiles.RoundTrip | common/ngram-cache.cpp:199-258 | Reading any file that lists a well-formed cache, in whatever order, gives the cache |
| NgramFiles.CutInsideRecord | common/ngram-cache.cpp:238-255 | A file cut inside a further record: inside its n-gram it is read without an error and without the record, behind the n-gram loading fails |
| NgramFiles.WordsOfRecord | common/ngram-cache.cpp:199-220 | The words of one n-gram: its four tokens, the number of continuations, and each token before its count |
| Drafting.Best | common/ngram-cache.cpp:112-132 | The scan over one part finds a continuation of greatest weighted count and the number of samples |
| Drafting.TryDraft | common/ngram-cache.cpp:97-143 | The answer comes from the longest n-gram that passes its thresholds; there is none only when every n-gram may fail |
| Drafting.CopyNgram | common/ngram-cache.cpp:159-180 | The lookup key is the last tokens of the prompt and the draft, read without leaving them |
| Drafting.Draft | common/ngram-cache.cpp:145-197 | The draft grows at its end only, to at most n_draft tokens more; every token added is one the three stages allow, and it stops short only when they may allow none |
| Drafting.StrictIsMajority | common/ngram-cache.cpp:61-62 | A token of the strict stage has more samples than all other continuations of its n-gram together |
| Drafting.StrictIsUnique | common/ngram-cache.cpp:61-62 | So the strict stage never has two tokens to choose from for one n-gram |
| Drafting.StrictIsMostSeen | common/ngram-cache.cpp:97-143 | Over a cache that counts a text, it followed the last tokens in that text more often than any other token |
| Drafting.CountsOfText | common/ngram-cache.cpp:11-51 | The counts of a text hold tokens and positive counts only, which the drafting lemmas ask of a cache |
| Drafting.MergedText | common/ngram-cache.cpp:260-285 | So do merged ones |
| Drafting.OrderDecides | common/ngram-cache.cpp:112-138 | Under any thresholds one n-gram has two outcomes, depending on the order of the map, if and only if two continuations tie at the top and one of them passes |
| Drafting.StrictTie | common/ngram-cache.cpp:61-62 | Under the strict thresholds the other one of them then fails |
| Drafting.StageHangsOnOrder | common/ngram-cache.cpp:97-143 | A whole stage, lax or strict, has two answers if and only if such an n-gram is reached and may pass a second token, or may fail where the shorter ones need not give the token it passes |
| Drafting.OneAnswer | common/ngram-cache.cpp:97-143 | A stage has one answer if no n-gram has such a tie under its own thresholds |
| Drafting.DraftDetermined | common/ngram-cache.cpp:145-197 | If no lookup on the way of a draft meets such a tie, every draft from the same prompt and caches is this one, in whatever order the maps are walked |
| Drafting.TieDecides | common/ngram-cache.cpp:117-132 | Inputs for which the order of the map decides between two tokens of n-grams of different lengths, between a token and none, and in the lax stage between two tokens of one n-gram |
| DraftStages.BetterContinuation | common/ngram-cache.cpp:117-130 | Which of two continuations wins: by count if the static cache knows neither, by the products of both counts if it knows both, and with a hundredfold static count against an unknown one |
| DraftStages.KnownTokenWins | common/ngram-cache.cpp:112-138 | A continuation seen twice that the static cache knows beats one seen three times that it does not, fails the threshold, and nothing is drafted |
| DraftStages.ThresholdsAsk | common/ngram-cache.cpp:58-62 | What the thresholds of the lax and of the strict stage ask for, for n-grams of each length |
| DraftStages.LastTwoTokens | common/ngram-cache.cpp:53-56 | The tokens behind which is drafted are those of the prompt and of the draft, and the static counts are those of the last two of them |
| DraftStages.ContextComesFirst | common/ngram-cache.cpp:180-182 | Unless the context cache may give nothing, what may follow is what it gives under the lax thresholds for the longest of the last tokens that pass |
| DraftStages.DynamicComesNext | common/ngram-cache.cpp:183-185 | Where it can only give nothing, what the dynamic cache gives under the strict thresholds, unless that may give nothing |
| DraftStages.StaticComesLast | common/ngram-cache.cpp:64-94 | Where neither knows the last tokens, a most frequent continuation of the last two tokens in the static cache, if they were seen twice and it makes up half of that |
| Tensors.UnravelRavel | convert_hf_to_gguf.py:1572-1574 | Row-major positions and indices correspond |
| Tensors.ReshapeAt | convert_lora_to_gguf.py:147-152 | A reshape that keeps the last axis moves elements by their leading index only |
| Tensors.ReshapeTail | convert_hf_to_gguf.py:1572-1574 | The same for a reshape that keeps any number of axes behind |
| TensorMeanings.ProductOfRankTwo | convert_lora_to_gguf.py:37-41 | A pair of matrices of rank two stands for the sum of its two outer products |
| TensorMeanings.ProductOfSeveral | convert_lora_to_gguf.py:37-41 | With several matrices each has its own A, or the only one there is |
| TensorMeanings.LastToFront | convert_lora_to_gguf.py:163-166 | The axes of a permuted tensor are the listed ones of the original, not the other way round |
| TensorMeanings.IndexedMatrix | convert_lora_to_gguf.py:65-112 | A slice of both axes starts at its lower ends, and a number takes one row |
| TensorMeanings.CatOfTwo | convert_lora_to_gguf.py:203-215 | Two concatenated matrices have the rows of the first, then those of the second |
| LoraTensors.ReshapeMeaning | convert_lora_to_gguf.py:128-152 | With a shared A, reshape (with -1 expanded) succeeds if and only if the shape keeps the last axis and the number of rows, and stands for the reshaped product |
| LoraTensors.ExpandMeaning | convert_lora_to_gguf.py:137-142 | One -1 in a shape becomes what completes the number of elements, if the product of the others divides it |
| LoraTensors.ExpandRefuses | convert_lora_to_gguf.py:137-152 | A negative dimension other than -1 is refused |
| LoraAxes.PermuteKeepingLast | convert_lora_to_gguf.py:163-166 | Permuting B by any permutation that fixes the last axis permutes the product |
| LoraAxes.PermuteMeaning | convert_lora_to_gguf.py:160-171 | Whatever permute returns stands for the permuted product, swapped factors included |
| LoraAxes.PermuteSucceeds | convert_lora_to_gguf.py:160-171 | It returns a pair if and only if the last axis stays or there are two axes |
| TensorMeanings.AxisMeans | convert_lora_to_gguf.py:160-162 | A negative number names an axis counted from the back; the rewriting takes a number beyond the axes for one counted from the front again |
| TensorMeanings.TransposeMeaning | convert_lora_to_gguf.py:173-177 | Whatever transpose or swapaxes returns stands for the product with the two axes exchanged |
| TensorMeanings.TransposeSucceeds | convert_lora_to_gguf.py:173-177 | With a shared A it returns a pair if and only if the last axis stays or there are two axes |
| LoraParts.IndexedPair | convert_lora_to_gguf.py:56-112 | Factors indexed axis by axis stand for the indexed product whenever their leading axes are aligned |
| LoraIndexing.SliceRows | convert_lora_to_gguf.py:70-74 | Slicing the rows of a matrix pair, with ends missing or counted from either side, slices the product |
| LoraIndexing.SliceExact | convert_lora_to_gguf.py:70-72 | With more axes the result fits, and is then the sliced product, if and only if A has the first axis in full, the slice takes the only position of an axis of length one, or it is empty |
| TensorMeanings.ClipMeans | convert_lora_to_gguf.py:70-74 | A position is in a slice if and only if it is not before its start and before its stop, each counted from the end if negative |
| TensorMeanings.PlaceMeans | convert_lora_to_gguf.py:65-69 | A number means a position if and only if that is its distance from one of the ends |
| LoraIndexing.SelectExact | convert_lora_to_gguf.py:65-69 | A single number, negative ones included, is accepted if and only if there are more than two axes, it is on the first one, and A has that axis in full or the number is 0 or -1; the result then selects from the product |
| LoraIndexing.TupleExact | convert_lora_to_gguf.py:93-110 | A tuple of numbers and slices, the last two of them slices, is refused exactly for a number off its axis; otherwise it fits, and is then the indexed product, if and only if every leading slice takes an axis A shares or as much as A's whole axis |
| LoraIndexing.NumberedTuple | convert_lora_to_gguf.py:44-45 | With a number on the rows or the columns the constructor's assertions refuse the factors, unless both are numbers and the last axis left is as long as the rank; the result then has an axis too many |
| LoraIndexing.EllipsisExact | convert_lora_to_gguf.py:75-94 | An ellipsis is expanded to subscripts of the meaning it has, on tensors of every shape, if and only if it is the last subscript, stands for as many axes as there are other subscripts, or stands for more with nothing but slices of whole axes behind it; standing for fewer it gives too many subscripts |
| LoraIndexing.EllipsisIndexes | convert_lora_to_gguf.py:75-110 | It then indexes a pair as the slices it means do |
| LoraJoins.StackMeaning | convert_lora_to_gguf.py:196-202 | The stack of pairs stands for the stack of products |
| LoraJoins.JoinedPairs | convert_lora_to_gguf.py:196-215 | A single pair can be joined, and so can two that agree in all axes but the first |
| LoraJoins.CatMatrices | convert_lora_to_gguf.py:203-215 | Matrix pairs are concatenated if and only if they share A, and then stand for the concatenated products |
| LoraJoins.CatExact | convert_lora_to_gguf.py:203-211 | With more axes the result fits if and only if the first axes of A add up to one or to those of B, which is so, where none is empty, if and only if A has it in full in every pair or there is one pair; it then stands for the concatenated products |
| AttentionRows.PermuteRowsMeaning | convert_hf_to_gguf.py:1568-1574 | On a weight or a bias: with a number of key and value heads given the reordering goes through if and only if the rows divide into that many heads of two halves, or the tensor is empty behind its rows; without one the same for the number of heads; row r of the result is row RowSource(r) |
| AttentionRows.SharedKeyHeads | convert_hf_to_gguf.py:1569-1574 | Keys of sixteen rows in two heads shared by four query heads: which row each comes from |
| AttentionRows.RowsPermuted | convert_hf_to_gguf.py:1568-1574 | The row map is a bijection on the rows, with its inverse |
| AttentionRows.PermuteRowsCommutes | convert_hf_to_gguf.py:1568-1574 | On a factored matrix the chain goes through if and only if it does on the product, with the same result |
| Base64Codec.Encode | common/base64.hpp:80-144 | The loop with its shifts and masks writes the 24-bit groups of the RFC, with padding |
| Base64Codec.Decode | common/base64.hpp:200-244 | The loop with its running bits decodes the groups, detects the alphabet, and throws exactly on a foreign character or, unless loose, on one behind the padding |
| Base64Codec.DecodeInPlace | common/base64.hpp:294-313 | Decoding over the input gives what decoding to another place does |
| Base64Codec.RoundTrip | common/base64.hpp:80-244 | Decoding undoes encoding under the same alphabet and under detection; under the other alphabet if and only if neither differing character occurs |
| Base64Codec.DecodingExact | common/base64.hpp:200-244 | Decoding ends without an exception if and only if the input is a text of one alphabet still in question up to the first padding character and, unless loose, only padding follows; it gives the bytes of that text |
| Base64Codec.CharacterAccepted | common/base64.hpp:344-389 | A character is read if and only if one of the alphabets in question has it |
| Base64Codec.AlphabetsSpelled | common/base64.hpp:84-86 | The two alphabets, letter by letter |
| Base64Codec.TestVectors | common/base64.hpp:80-144 | Two test vectors of the RFC |
| Base64Codec.EncodedSize | common/base64.hpp:338-341 | The encoded size is the required one |
| Base64Codec.DecodedSize | common/base64.hpp:324-327 | The decoded size is at most the reserved one |
| EscapeProcessing.ProcessEscapes | common/common.cpp:549-584 | The in-place rewriting leaves the left-to-right unescaping of the original contents, for every buffer |
| EscapeProcessing.Unquotes | common/common.cpp:549-584 | Any bytes, each written by its letter escape, in hexadecimal, or plainly, come back |
| EscapeProcessing.NeverLonger | common/common.cpp:549-584 | The result is never longer than the input |
| EscapeProcessing.LettersStandFor | common/common.cpp:555-561 | What the letter escapes stand for |
| EscapeProcessing.UnknownKept | common/common.cpp:575-580 | Any other letter keeps its backslash, and so does a backslash at the end |
| EscapeProcessing.HexRead | common/common.cpp:562-576 | Behind the x a sign or white space may stand in front of one digit; in front of what is no number the backslash and the x are kept |
| LineEditing.CodeOfUtf8 | common/console.cpp:318-337 | The bytes appended for a code point stand for it |
| LineEditing.PopUndoesAppend | common/console.cpp:339-353 | Removing the last character undoes appending one |
| LineEditing.EncodingUnique | common/console.cpp:318-337 | A line determines its code points |
| LineEditing.Editor.Append | common/console.cpp:409-417 | A typed character adds its bytes and one width |
| LineEditing.Editor.Backspace | common/console.cpp:395-408 | A backspace leaves the encoding of the code points that survive it, with one width each |
| LineEditing.ErasedMeans | common/console.cpp:395-408 | It removes the trailing zero-width code points and one of positive width, or everything if none has a width |
| LineEditing.Editor.ReadLine | common/console.cpp:355-456 | A whole line: the surviving code points after all keys and escape sequences, and the handling of a final backslash or slash |
| LineEditing.PlainLine | common/console.cpp:366-417 | Ordinary characters are kept, and which keys end the line, end the input or erase |
| LineEditing.KeysDropped | common/console.cpp:385-394 | Escape sequences of function keys leave no trace, whatever their parameters |
| LineEditing.LineEnds | common/console.cpp:426-452 | What becomes of a line that ends in a backslash, in a slash, in another character or with the stream |
| LineEditing.EncodingExamples | common/console.cpp:318-337 | The examples of the RFC |
| TrainBatches.NextToken | common/train.cpp:262-287 | One token of a row: the next pending one, or the first of the next sample |
| TrainBatches.BuildRow | common/train.cpp:245-292 | A row: one-hot targets that are the first tokens of the stream, inputs shifted by one behind a begin token, other rows untouched |
| TrainBatches.BuildBatch | common/train.cpp:215-295 | All rows up to the first one whose first sample fails the assertion; their samples are consecutive modulo the number of samples, and the returned number is how many were drawn |
| TrainBatches.RowDetermined | common/train.cpp:245-292 | The start of a row determines its tokens and the number of samples drawn |
| TrainBatches.SamplesInTurn | common/train.cpp:247-284 | The samples are drawn one after the other from the given one on, the first one following the last |
| TrainBatches.PartsOfRow | common/train.cpp:247-287 | The tokens of the first sample from its offset, of a following one, and the separators; tokens outside the vocabulary become its first or its last one |
| ExpertCollection.Collector.ModifyTensors | convert_hf_to_gguf.py:1587-1617 | One arrival: nothing yet, the three stacks in expert order, or a missing name; other layers untouched |
| ExpertCollection.StacksInOrder | convert_hf_to_gguf.py:1603-1616 | The stacks are those of w1, w2 and w3 in this order, each in the order of the experts |
| ExpertCollection.RunMeaning | convert_hf_to_gguf.py:1587-1617 | For any interleaving of distinct well-formed names: no call fails, a complete layer has returned its stacks once and holds nothing, any other layer has returned nothing |
| ExpertCollection.OrderIndependent | convert_hf_to_gguf.py:1587-1617 | The same tensors in another order return the same stacks |
| ExpertCollection.Collector.PrepareTensors | convert_hf_to_gguf.py:1652-1659 | The final check raises if and only if a collector holds a tensor |
| ExpertCollection.CheckExact | convert_hf_to_gguf.py:1652-1659 | That is, if and only if a tensor of some layer has arrived and another one has not |

## Left out

- The textual rendering of grammars: rules are abstract syntax, so quoting, bracket escaping and the parsing of GBNF text are not modelled.
- The pattern compiler, reference resolution and the dispatch over schema types: they rest on regular expressions and a JSON library.
- IntRange.BuildMinMaxInt: not for a maximum of INT_MIN where the code negates it, since that overflows.
- NotStrings.NotStringsRule: forbidden keys and accepted ones are printable ASCII without quote and backslash; the trailing space rule is dropped, and the trie's nodes are entries of one list instead of nested maps.
- SchemaRules.SchemaConverter.BuildObjectRule: the rules for keys and values of a member are taken as symbols that stand for themselves.
- Generation.Run: interactive mode and session-file reuse are not modelled; sampled tokens and the reason to stop are parameters.
- Generation.Generator.Predict: that evaluation fails is not modelled; at a context shift the kept tokens may exceed n_past by one at most, which holds in every run that has read its prompt.
- KvCaches.SelfExtend: the group width is positive, since the source divides by it.
- LogProtocol.RunExact: there is one controller; the lock makes each section one step; what an entry looks like when printed, time stamps and the text left in the end marker's slot are not modelled.
- NgramCache.Update: counts are unbounded integers; the map is passed in and returned instead of updated through a reference.
- NgramFiles.Load: the file is a sequence of 32-bit words, so a file cut inside a word is not modelled.
- Drafting.Draft: requires a prompt at least as long as the longest n-gram, if anything is to be drafted; below that the source reads in front of the prompt.
- Drafting.TryDraft: stated for caches of non-negative tokens with positive counts, which is what counting a text produces; a token -1 in a loaded file would read as no answer.
- Tensors and factored weights are over the reals, so rounding and element types are not modelled.
- LoraIndexing.TupleExact: slices have no step.
- LoraTensors.ReshapeMeaning: stated for a rank of at least one.
- LoraAxes.PermuteMeaning: numbers beyond the axes are read as the code reads them, which accepts some that a dense tensor refuses.
- Base64Codec.Encode: iterators are sequences and an array; `|` of disjoint bits is a sum.
- LineEditing.Editor.ReadLine: what is drawn on the terminal is not modelled; the width of each character is an input.
- TrainBatches.BuildBatch: requires every sample to lie within the data, which the source asserts of the first of each row and reads beyond otherwise.
- ExpertCollection.RunMeaning: names are a layer, an expert and a kind instead of text; stacking is the list of the parts.
- Model loading, downloads, terminal control, option tables, tokenisation, sampling and quantisation.
- The floating-point schedules and normalisations, and the small ring buffer of the sampler, a simpler repeat of the log queue.
