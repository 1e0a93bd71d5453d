# Verified models of a blockchain node and its tooling

The node builds on a tree of candidate blocks, decides which of them are irreversible, commits to
them with Merkle roots, and gives contracts 128-bit integer conversions for doubles. Its developers
keep the reflection macros of the C++ classes honest with a checking script, and drive several nodes
through forks in their unit tests. This project models the algorithms behind each of these and proves
what they are for, over every input, every run or every reachable state.

`dafny verify dfyconfig.toml` checks all modules.

| area | modules | main results |
|---|---|---|
| Field matching of the reflection checker | `Matching`, `MatchingRules`, `MatchingReasons`, `RedundantMarks`, `Reflections`, `Validation`, `ImplicitId` | `DecideExact`, `AcceptsExactly`, `ReasonIsTrue`, `ValidationRule`, `AgreeConserves`, `AnywhereExactly` |
| Scopes of a C++ file | `Braces`, `Scopes`, `ScopeReader`, `EnumScan`, `Lookup`, `LookupReading`, `LookupAliases`, `LookupAnswers` | `Scope.Read`, `LookAheadHarmless`, `EnumRoundTrip`, `StaysExactly`, `EndsExactly`, `AnswerExactly` |
| Fork database | `ForkTree`, `ForkDatabase`, `ForkOrphans`, `ForkCode`, `ForkStore` | `RunKeepsInv`, `PerformKeepsInv`, `AdvancedExact`, `SwitchForks`, `RoundTrip`, `LoadedExactly` |
| Receiving blocks | `ForkSync`, `ForkPush`, `ForkHeaders`, `ForkUtilities` | `PushedExact`, `CaughtUpExact`, `ReceivedExactly`, `PushBlocks`, `ProduceUntilBlocksFrom` |
| Irreversibility | `Dpos`, `DposVotes`, `DposQuorum`, `DposHistory`, `DposRuns` | `LastIrreversibleExact`, `ProposedHasQuorum`, `TrackedLacksQuorum`, `IrreversibleHasQuorum`, `LibFallsExactly`, `RangeCheckExact` |
| Merkle roots | `Merkle` | `IncrementalMerkle.Append`, `BatchRoot`, `CompleteIsFinal` |
| Double and 128-bit integer | `Powers`, `Conversions`, `Rounding`, `NearestDouble` | `FixUnsignedTruncates`, `FixSignedTruncates`, `FloatIsNearest`, `RoundTripExact` |

`Sequences` and `Orbits` hold the facts about sequences and about repeated steps that the others share.

## What turned out false

Each of these has a lemma with the exact condition under which it holds, and an input or a run for which it
fails.

- A swap mark that could be left out is not always rejected. The header comment of the script asks that
  only fields out of order be marked (`tools/validate_reflection.py:19-24`). The code never rejects a mark
  that is needed, and accepts one that is not exactly when it is hidden: behind a swapped field in the
  macro, or behind an ignored or an already listed field in the class
  (`RedundantMarks.NeedlessExactly`, `RedundantMarks.RuleFailsExactly`;
  `MatchingRules.InOrderMarkBehindIgnored` and `RedundantMarks.HiddenBehindSwapped` are inputs).
- `find_class` need not end, though nothing in the script allows for that: `LookupAliases.EndsExactly` says
  when it does, and `LookupAliases.SelfAlias` when not.
- The guess where a scope ends is meant to pass over one initialiser in braces, but looks on one character too far
  behind it: it is the first close brace behind the initialiser exactly when none stands right there
  (`Scopes.SkipsOneMore`; `Scopes.MissesTheEnd` is an input). Which scopes are read does not depend on it
  (`Scopes.LookAheadHarmless`).
- A chainbase object need not reflect its `id`, and then may have it anywhere in the class, but not always as if it
  were not there: directly before a swapped field it hides a needless mark (`ImplicitId.AnywhereExactly`;
  `ImplicitId.HidesAMark` is an input).
- Opening a fork database does not ask that its head be validated: the database that a file gives keeps the
  invariant exactly when it is (`ForkStore.LoadedKeepsInv`; `ForkStore.UnvalidatedHeadOpens` is a family of files).
  Files that the node wrote have a validated head.
- `advance_root` erases the new root before it knows that it can finish. It loses the tree exactly when it
  is asked for a validated block that the head is not built on and another block is
  (`ForkDatabase.PerformKeepsInv`); `ForkOrphans.OrphaningIsReachable` is a run that leads there.
- The last irreversible block number can fall: exactly right after a new schedule has taken over, when at
  least a third of it lags behind (`Dpos.LibFallsExactly`); `DposRuns.PromotionLowersLib` is a run from
  genesis. A fork database with such a branch cannot be opened again (`ForkStore.RoundTrip`), a block at
  which it falls does not in general become the head when it is committed
  (`ForkDatabase.CommitBecomesHead`), and another node cannot catch up beyond it (`ForkSync.CaughtUpExact`).
  `ForkHeaders.ReceivedExactly` and `ForkHeaders.CommittedExactly` say so for the blocks of any run of headers,
  and `ForkHeaders.FallStopsNodes` is a run from genesis and a block of it at which all three happen.
- The check against confirming a block twice subtracts in 32 bits, and passes when a header confirms more
  blocks than there are. Then a round counts a producer again exactly under the condition in
  `DposVotes.RangeCheckExact`. A block that becomes proposed lacks its two thirds of confirmers exactly when one
  of those headers so far was by a producer that had confirmed the block before
  (`DposQuorum.ProposedHasQuorum`, for every run; `DposVotes.ProposesExact`, for one step);
  `DposRuns.WrappedRangeLosesQuorum` is a run from genesis.
- The assertion on a repeated swap mark has too few arguments for its message
  (`tools/validate_reflection.py:524`) and raises an exception that the callers, which wait for failed
  assertions, do not catch: `Reflections.MarksEnd` says when, and `Reflections.RepeatedSwap` is an input.
- `___fixdfti` shifts past the sign bit for magnitudes from 2^127 up to 2^128, where C defines no result:
  `Conversions.FixSignedDefined`; `Conversions.FixSignedUndefined` is an input.

Two pieces of the script are never reached. It means to look up qualified names through a base class, but tests the
whole qualified name against child names, which hold no separator (`Lookup.InheritedBranchDead`). The assertion that
a swapped field met in the class is provided later (`tools/validate_reflection.py:693`) cannot fail
(`MatchingReasons.ReasonIsTrue`).

## How things are modelled

- Objects that the source updates in place are classes (`Reflection`, `Collection`, `Scope`, `Table`,
  `Database`, `IncrementalMerkle`, `Tester`); their methods are proved against functions on
  values, and the theorems are about those functions. Loops are loops.
- A block state is a value with its id, its parent's id, the irreversible block number it claims and
  its validated flag. A reference to a block state is its id. The number of a block is part of its id, as
  in `libraries/chain/block_header.cpp:13-25`. The ordered index is the set of blocks with the order
  that `begin()` and the reverse iterators follow.
- `std::nth_element` is given by its specification: the value with at most k smaller ones and more than
  k not greater. Block numbers are unbounded, except in the two subtractions where 32-bit wrap-around
  can be reached.
- Bit masks and shifts are remainders, quotients and products by powers of two; a 128-bit value is an
  integer below 2^128. The value of a double is an integer multiple of 2^-1074, so every finite value is
  exact. The conversions follow convertToIntegerTowardZero in section 5.8 of IEEE 754-2008, with the
  binary64 parameters of section 3.6.
- The hash of a pair is an arbitrary function, the producers of the test chains arbitrary functions
  of the height, and the pattern that recognises the head of a class an arbitrary function of where the
  parser is. The one thing asked of it, `Honest`, is that it reports braces of the text that it could
  have found. Where the parser's slices end at -1, the model drops the last character as Python does.
- `find_class` runs under a limit on its depth, as Python's interpreter sets one. Names are cut at their
  separators once rather than call by call; `Lookup.ParsedSpelled` and
  `LookupReading.Table.FindClass` connect the two. Scopes are read one inside the other, and a scope is added to
  the one around it when it has been read to its end.
- A run of headers starts from the genesis state of `libraries/chain/controller.cpp:491-502`, and every block
  is made by a producer of the schedule and passes the range check. Nothing else is asked of it.
- A node that receives blocks applies every block it switches to, and its head is that of its fork database.
  A block claims an irreversible number below its own, as `Dpos.LibBelowNum` shows of headers, and blocks
  with one id are one block.

## Model

| member | source | states |
|---|---|---|
| `Matching.StepKeepsInv` | `tools/validate_reflection.py:640-679` | every iteration keeps the four mark lists disjoint, duplicate-free and tied to the fields still to come |
| `Matching.StepConserves` | `tools/validate_reflection.py:645-679` | an iteration only lets go of a swap mark by meeting the field on the other side; ignore marks are conserved; the number of fields left strictly falls |
| `Matching.StepKeepsGood` | `tools/validate_reflection.py:640-679` | agreement up to the marks is the same before and after every iteration, and an agreeing state can fail only on a swap mark in place |
| `Matching.StepKeepsNeedless` | `tools/validate_reflection.py:645-659` | whether the loop will run into a needless swap mark is the same before and after every iteration, and it fails there exactly on one |
| `Matching.DrainExact` | `tools/validate_reflection.py:682-690` | the loop over the rest of the reflected fields settles exactly the back-swapped fields among them, and leaves none unused exactly when all of them are back-swapped |
| `Matching.FinishExact` | `tools/validate_reflection.py:681-694` | the assertions after the loop pass exactly when what is left agrees |
| `Matching.RunExact` | `tools/validate_reflection.py:640-694` | from any state the loop can be in: rejected when the rest disagrees, rejected for a swap mark in place when one is needless, accepted otherwise |
| `Matching.DecideExact` | `tools/validate_reflection.py:631-694` | the exact verdict: rejected when the lists disagree up to the marks; otherwise rejected at the assertion of line 650 when a mark is needless; otherwise accepted |
| `MatchingRules.DistinctCounts` | `tools/validate_reflection.py:533-536` | no field is repeated exactly when every count is at most one |
| `MatchingRules.AgreeConserves` | `tools/validate_reflection.py:631-694` | agreement is conservation: the class fields are, counted, the reflected and the ignored ones; no ignored field is reflected, every swapped one is; the rest is in the same order |
| `MatchingRules.SingleSwap` | `tools/validate_reflection.py:645-659` | with one swap mark and nothing ignored: accepted exactly when taking that field out makes the lists equal and its positions differ |
| `MatchingRules.SingleSwapAt` | `tools/validate_reflection.py:650-659` | a single mark is needless exactly when the field stands at the same position on both sides |
| `MatchingRules.Transposition` | `tools/validate_reflection.py:19-24` | two exchanged neighbours between any equal ends: marking either is accepted, marking both or neither is rejected |
| `MatchingRules.InOrderMarkBehindIgnored` | `tools/validate_reflection.py:19-24` | a mark on a field in order is accepted behind an ignored field, though the comment asks for it not to be there |
| `MatchingRules.ContradictoryMark` | `tools/validate_reflection.py:645-649` | a field that is marked both ways and not reflected is always rejected, as when the implicit `id` meets a swap mark |
| `MatchingReasons.ReasonIsTrue` | `tools/validate_reflection.py:645-694` | the reason a reflection is rejected for is true of its fields and marks, assertion by assertion, and the one on line 693 is never it |
| `RedundantMarks.RedundantExactly` | `tools/validate_reflection.py:19-24` | a mark could be left out exactly when the same unmarked fields stand before its field in class and macro |
| `RedundantMarks.NeedlessExactly` | `tools/validate_reflection.py:645-659` | what the loop objects to are exactly the marks that could be left out and are not hidden: no needed mark is ever rejected |
| `RedundantMarks.AcceptsExactly` | `tools/validate_reflection.py:631-694` | a reflection is accepted exactly when the lists agree up to the marks and every mark that could be left out is hidden |
| `RedundantMarks.RuleFailsExactly` | `tools/validate_reflection.py:19-24` | a reflection with a mark that could be left out is accepted exactly when the lists agree and one such mark is hidden, as are all others |
| `RedundantMarks.HiddenBehindSwapped` | `tools/validate_reflection.py:19-24` | it fails with nothing ignored: a mark that can be left out is accepted behind a swapped field that the macro lists earlier |
| `Reflections.MarksKeepWellMarked` | `tools/validate_reflection.py:510-530` | adding marks, also when it stops at a failing assertion, keeps every table entry free of repetitions and of fields marked both ways |
| `Reflections.ReachableWellMarked` | `tools/validate_reflection.py:510-536` | so does any sequence of calls |
| `Reflections.MarksEnd` | `tools/validate_reflection.py:516-526` | a comment's marks are all added exactly when none is on a field that has one; the first that is ends the call with a failed assertion, or with a formatting error exactly when it repeats a swap mark |
| `Reflections.RepeatedSwap` | `tools/validate_reflection.py:524` | a comment that marks a field as swapped twice ends in the formatting error |
| `Reflections.CollectedExactly` | `tools/validate_reflection.py:516-536` | calls that all return leave for every class exactly the fields and the marks of either kind that they gave it, in their order |
| `Reflections.PassesExactly` | `tools/validate_reflection.py:516-536` | a file's calls all return exactly when no class gets a field twice, a mark twice, or marks of both kinds for a field |
| `Reflections.NamedExactly` | `tools/validate_reflection.py:507-518` | a class is in the table exactly when some call was for it |
| `Reflections.Reflection.constructor` | `tools/validate_reflection.py:382-388` | a new reflection is empty |
| `Reflections.Reflection.AddField` | `tools/validate_reflection.py:533-536` | appends a new field, fails unchanged on a repeated one |
| `Reflections.Reflection.AddMark` | `tools/validate_reflection.py:519-526` | appends a mark of its kind; ends as the assertions in their order do, unchanged, when the field already has a mark |
| `Reflections.Collection.constructor` | `tools/validate_reflection.py:390-395` | a new collection has no classes |
| `Reflections.Collection.FindOrAdd` | `tools/validate_reflection.py:489-493` | gives the entry of that name, adds only an empty one, and no two names share an entry |
| `Reflections.Collection.AddField` | `tools/validate_reflection.py:533-537` | the table changes at that name only, and as adding to its entry says |
| `Reflections.Collection.AddMark` | `tools/validate_reflection.py:516-526` | the same for one mark |
| `Reflections.Collection.AddIgnoreSwaps` | `tools/validate_reflection.py:510-530` | the loop over the marks of a comment: all of them, or those before the first failing one |
| `Validation.Match` | `tools/validate_reflection.py:631-694` | the two-cursor loop with its lists gives the verdict of the set machine and leaves its marks, so the order of the marks never matters |
| `Validation.DrainRest` | `tools/validate_reflection.py:683-690` | the closing loop over reflected fields does what `Drain` says |
| `Validation.Finished` | `tools/validate_reflection.py:681-694` | the closing assertions, in their order, give the verdict of `Finish` |
| `Validation.Validate` | `tools/validate_reflection.py:624-694` | the verdict of the whole check with the implicit `id`; an accepted reflection has used up all its marks |
| `Validation.AcceptedUsesAllMarks` | `tools/validate_reflection.py:681-694` | no mark of any kind is left when a run is accepted |
| `Validation.ValidationExact` | `tools/validate_reflection.py:609-694` | for every sequence of calls that builds a table, a reflection is accepted exactly when its fields agree with the class up to its marks and no swap mark is needless; when all calls returned, these are the fields and marks of the calls, and `id` for a chainbase object that does not reflect it |
| `Validation.ValidationRule` | `tools/validate_reflection.py:610-694` | the same in the terms of the documented rule: agreement, and no mark that could be left out unless hidden |
| `ImplicitId.AnywhereExactly` | `tools/validate_reflection.py:624-628` | a chainbase object whose macro does not mention `id` is accepted with it anywhere in the class exactly when the rest agrees and every needless mark has the `id` within its stretch |
| `ImplicitId.AnywhereLikeWithout` | `tools/validate_reflection.py:624-628` | what is accepted without `id` is accepted with it, and conversely unless a swapped field comes next |
| `ImplicitId.HidesAMark` | `tools/validate_reflection.py:624-628` | an input for which the converse fails |
| `ImplicitId.MissingRejected` | `tools/validate_reflection.py:624-628` | a chainbase object without `id` is rejected when its macro does not mention it |
| `ImplicitId.MentionedLikeOthers` | `tools/validate_reflection.py:624-628` | an `id` that is reflected or marked as ignored is treated as in any other class; one marked as swapped and not reflected is rejected |
| `Braces.CloseMeaning` | `tools/validate_reflection.py:110-124` | the closing brace is the one before which nesting never falls below the start and after which it does |
| `Braces.CloseTwice` | `tools/validate_reflection.py:119-120` | closing from a deeper level is closing the inner scope and then the outer |
| `Braces.CloseByScope` | `tools/validate_reflection.py:110-120` | skipping one whole nested scope does not change which brace closes the outer one |
| `Braces.LimitIsClose` | `tools/validate_reflection.py:119-120` | the walk over scopes of a closed text stops at its closing brace |
| `Braces.StartsAreOpens` | `tools/validate_reflection.py:110-116` | the tree of scopes starts one scope at every opening brace of its stretch, in text order |
| `Braces.ChildrenNested` | `tools/validate_reflection.py:110-124` | every scope ends at its matching brace, siblings are disjoint and in order, children lie inside their parent |
| `Braces.BalancedMatches` | `tools/validate_reflection.py:110-124` | in a balanced text every opening brace has a matching close and nothing closes the whole |
| `Braces.BalancedComplete` | `tools/validate_reflection.py:110-124` | the tree of a balanced text covers all its opening braces |
| `Scopes.MatchIsInit` | `tools/validate_reflection.py:86` | what the skip pattern matches is an initialiser: braces without `;` or `}` between, then space, then `;` |
| `Scopes.InitMatches` | `tools/validate_reflection.py:86` | wherever an initialiser stands the pattern matches |
| `Scopes.MatchFoundAgain` | `tools/validate_reflection.py:139-144` | looking for the matched text again finds the match itself, not an earlier copy |
| `Scopes.LookAheadHarmless` | `tools/validate_reflection.py:138-164` | the initialiser skip, also when it yields -1, never changes which brace is entered next |
| `Scopes.EntersNextOpen` | `tools/validate_reflection.py:151-164` | the brace entered is the next opening one before any closing one, unless it is the last character |
| `Scopes.PossibleEndExact` | `tools/validate_reflection.py:137-149` | the guess is the first close brace, or, if that is inside the first initialiser, the first one that is not right behind that |
| `Scopes.PossibleEndPlain` | `tools/validate_reflection.py:137-149` | without an initialiser it is the first close brace |
| `Scopes.SkipsOneMore` | `tools/validate_reflection.py:145-146` | the guess is the first close brace behind the initialiser exactly when none stands right behind it |
| `Scopes.MissesTheEnd` | `tools/validate_reflection.py:145-146` | an input for which it is not |
| `ScopeReader.InsideIsMatched` | `tools/validate_reflection.py:110-124` | every opening brace inside a closed stretch is itself closed |
| `ScopeReader.StuckMeaning` | `tools/validate_reflection.py:110-124` | reading fails from a position exactly when nothing closes it and some later brace is never closed |
| `ScopeReader.BalancedIsRead` | `tools/validate_reflection.py:110-124` | every balanced text is read to the end, into a nested tree with one scope per opening brace |
| `ScopeReader.WalkStep` | `tools/validate_reflection.py:151-164` | one step enters the next scope of the reference tree, ends the walk where the tree ends, and fails where it is stuck |
| `ScopeReader.HeaderBehindFirst` | `tools/validate_reflection.py:340-353` | a class header is never before the first brace, so choosing between the two always enters the first |
| `ScopeReader.Scope.constructor` | `tools/validate_reflection.py:95-108` | a new scope has its cursor behind its brace; only the one at position 0 knows its end |
| `ScopeReader.Scope.Read` | `tools/validate_reflection.py:110-124` | the mutually recursive reader fails exactly when the scope has no matching brace, or the file is stuck; otherwise it ends at the matching brace having visited exactly the reference tree |
| `ScopeReader.Scope.OpenScope` | `tools/validate_reflection.py:337-352` | a class header and a plain brace compete for the first place before the guessed end; whichever wins, the scope opened starts at the first open brace, and it is a class exactly when a header ends there |
| `ScopeReader.Scope.NextScope` | `tools/validate_reflection.py:151-164` | both versions of next_scope advance by one whole scope of the tree |
| `EnumScan.PrintedMatches` | `tools/validate_reflection.py:234` | the pattern matches every printed enumerator, giving its name and stopping at the delimiter behind it |
| `EnumScan.MatchIsPrinted` | `tools/validate_reflection.py:234` | it matches nothing else |
| `EnumScan.NoNameLeft` | `tools/validate_reflection.py:234` | a trailing comma adds no name |
| `EnumScan.EnumRoundTrip` | `tools/validate_reflection.py:291-300` | scanning the printed form of any enumerators, with values and a trailing comma or without, gives back their names in order |
| `EnumScan.MatchesAgain` | `tools/validate_reflection.py:297-298` | the text of a match matches wherever it stands |
| `EnumScan.FoundAgain` | `tools/validate_reflection.py:297-298` | looking for that text finds the match, and one character before its end is where the scan goes on |
| `EnumScan.AddFields` | `tools/validate_reflection.py:268-277` | the loop over the body collects what the scan defines, and ends |
| `Lookup.SpelledParsed` | `tools/validate_reflection.py:167-171` | cutting a name at its separators loses nothing |
| `Lookup.ParsedSpelled` | `tools/validate_reflection.py:167-171` | words joined by separators are cut into those words |
| `Lookup.InheritedBranchDead` | `tools/validate_reflection.py:175-177` | no qualified name is found through a base class |
| `Lookup.PathFound` | `tools/validate_reflection.py:166-188` | a qualified name whose components lead through children is resolved to where they lead, in exactly one call per component |
| `Lookup.ByChildrenStays` | `tools/validate_reflection.py:166-188` | an answer found through children alone stays the answer after any additions |
| `LookupReading.AnswerClosed` | `tools/validate_reflection.py:166-198` | whatever is found has been read to its end |
| `LookupReading.BaseClosed` | `tools/validate_reflection.py:255-258` | so has every base, which is looked up in the scopes around the new one from the inside out |
| `LookupReading.PerformKeeps` | `tools/validate_reflection.py:109-117` | beginning or ending a scope keeps children and bases among the scopes that have been read, and leaves those as they are |
| `LookupReading.ReadingKeeps` | `tools/validate_reflection.py:109-117` | however reading goes on: scopes that have been read stay as they are, and no other loses a child, changes one, or changes its base |
| `LookupReading.FirstOfferStays` | `tools/validate_reflection.py:261-266` | the child under a name is the first class read under it |
| `LookupReading.BaseExactly` | `tools/validate_reflection.py:255-258` | the base is what the innermost scope around that knows it answers, and there is none when none does |
| `LookupReading.AliasesExactly` | `tools/validate_reflection.py:302-314` | the last alias for a name counts, and a name without one keeps what it had |
| `LookupReading.EnterExactly` | `tools/validate_reflection.py:337-355` | a class begins with the base that the scopes around it knew before the aliases in front of it were added |
| `LookupReading.ClosedStays` | `tools/validate_reflection.py:166-198` | a scope that has been read answers every lookup, also a failing or endless one, the same way for good |
| `LookupReading.QualifiedStays` | `tools/validate_reflection.py:169-175` | a class found by a qualified name stays the answer, also where aliases and bases behind the first component led to it |
| `LookupReading.TakenOver` | `tools/validate_reflection.py:184-196` | an answer for one word through an alias or a base, given by a scope that is still being read, is taken over by a child that later reading can add |
| `LookupReading.StaysExactly` | `tools/validate_reflection.py:166-198` | a found class stays the answer under everything that may be read later exactly when the scope asked has been read, the name is qualified, or it names a child |
| `LookupReading.Table.constructor` | `tools/validate_reflection.py:600` | reading starts with the global scope |
| `LookupReading.Table.Enter` | `tools/validate_reflection.py:337-355` | a scope begins with its base looked up, and the scope around it gets the aliases in front; fails exactly when the lookup of the base does not end in time |
| `LookupReading.Table.Leave` | `tools/validate_reflection.py:112-117` | a scope that ends is added to the one around it, if both are classes and the name is free |
| `LookupReading.Table.FindBase` | `tools/validate_reflection.py:255-258` | the loop over the scopes around finds the innermost answer |
| `LookupReading.AddUsings` | `tools/validate_reflection.py:302-314` | the loop over the aliases adds them in order, later ones replacing earlier |
| `LookupReading.Table.FindClass` | `tools/validate_reflection.py:166-198` | the recursive lookup over strings gives the answer of the step machine over cut names |
| `LookupReading.Table.FindQualified` | `tools/validate_reflection.py:169-177` | so do its branches for a qualified name |
| `LookupAliases.NeverEndsByAlias` | `tools/validate_reflection.py:189-192` | a lookup never ends exactly when it comes to an alias whose target's lookup never does |
| `LookupAliases.EndsExactly` | `tools/validate_reflection.py:166-198` | it never ends exactly when going from alias to alias comes round in a circle, and as many hops as there are aliases tell |
| `LookupAliases.SelfAlias` | `tools/validate_reflection.py:189-192` | an alias for its own name never resolves |
| `LookupAnswers.WordAnswer` | `tools/validate_reflection.py:184-198` | one word is answered by the child of that name, else by what the alias leads to, else by the child of the base, else by nothing |
| `LookupAnswers.StrayAnswer` | `tools/validate_reflection.py:172-178` | a qualified name whose first component is no child finds nothing |
| `LookupAnswers.FollowedAnswer` | `tools/validate_reflection.py:169-175` | components that lead through children leave the rest to be asked where they lead |
| `LookupAnswers.EndAnswers` | `tools/validate_reflection.py:166-198` | whatever the depth, a lookup that does not run out of it gives what is found where its last alias leads: a child, or else a child of the base |
| `LookupAnswers.AnswerExactly` | `tools/validate_reflection.py:166-198` | every lookup that answers at all comes to such a place and gives that answer |
| `ForkTree.FirstExists` | `libraries/chain/fork_database.cpp:36-56` | the by_lib_block_num order is total on a finite index: there is a first block |
| `ForkTree.AboveLinear` | `libraries/chain/fork_database.cpp:457-514` | two ancestors of a block are on one line |
| `ForkTree.PrunedTwice` | `libraries/chain/fork_database.cpp:320-322` | removing a branch and then the branch it grew on is removing the latter |
| `ForkTree.ChainPath` | `libraries/chain/fork_database.cpp:457-514` | the chain to a block is the chain to an ancestor and then the branch between, turned round |
| `ForkDatabase.AddedKeepsInv` | `libraries/chain/fork_database.cpp:348-383` | adding keeps the blocks a tree over the root and the head the best validated block; it fails, changing nothing, for a missing parent, the root itself included, and else for a known block unless duplicates are ignored |
| `ForkDatabase.AddedAgain` | `libraries/chain/fork_database.cpp:351-363` | adding a block again changes nothing, and fails unless duplicates are ignored |
| `ForkDatabase.MarkedValidKeepsInv` | `libraries/chain/fork_database.cpp:548-566` | marking a block valid keeps the same invariant |
| `ForkDatabase.RolledBackKeepsInv` | `libraries/chain/fork_database.cpp:281-291` | so does rolling back, which makes the root the head, leaves no other block validated and loses none |
| `ForkDatabase.RemovedKeepsInv` | `libraries/chain/fork_database.cpp:522-541` | so does removing a branch, or refusing to |
| `ForkDatabase.AboveCut` | `libraries/chain/fork_database.cpp:315-317` | taking one block out cuts exactly the lines of descent that run through it |
| `ForkDatabase.RemovedAllExact` | `libraries/chain/fork_database.cpp:319-322` | removing the ancestors from the nearest to the root prunes everything still joined to the root, and fails exactly when the head is among it |
| `ForkDatabase.AdvancedExact` | `libraries/chain/fork_database.cpp:298-329` | advancing succeeds exactly for a known, validated block that the head is built on, and then keeps exactly that block's descendants, the head and the invariant |
| `ForkDatabase.FailedAdvanceOrphans` | `libraries/chain/fork_database.cpp:315-322` | advancing to a validated block off the head's branch leaves a tree exactly when nothing was built on that block |
| `ForkDatabase.AdvancedKeepsInv` | `libraries/chain/fork_database.cpp:298-329` | advancing, succeeding or failing, keeps the invariant exactly when it orphans no block |
| `ForkDatabase.PerformKeepsInv` | `libraries/chain/fork_database.cpp:268-383` | every operation on every argument keeps the invariant exactly when it is not an advance that orphans a block |
| `ForkDatabase.RunKeepsInv` | `libraries/chain/fork_database.cpp:268-566` | in every run from a reset, failing calls included and only orphaning advances excluded, every state is a tree whose head is its best validated block |
| `ForkOrphans.OrphaningIsReachable` | `libraries/chain/fork_database.cpp:298-329` | a run from a reset after which one more advance loses the invariant |
| `ForkDatabase.PendingHeadIsBest` | `libraries/chain/fork_database.cpp:405-416` | in a reachable state nothing is preferred to the pending head, validated or not |
| `ForkDatabase.CommitBecomesHead` | `libraries/chain/controller.cpp:1950-1954` | a block committed on the head becomes the head exactly when its irreversible number does not fall, or the head is the root and the block is preferred to every validated one, of which there is one |
| `ForkDatabase.AddLowersHead` | `libraries/chain/fork_database.cpp:379-382` | adding a block makes the head worse exactly when the head is the root and all validated blocks, of which there is one, claim an older irreversible block |
| `ForkDatabase.MarkNeverLowersHead` | `libraries/chain/fork_database.cpp:562-565` | marking a block valid never does |
| `ForkCode.ExpandedExact` | `libraries/chain/fork_database.cpp:522-536` | a fully expanded removal queue holds exactly the descendants |
| `ForkCode.RemoveQueue` | `libraries/chain/fork_database.cpp:522-536` | the breadth-first loop ends; it gives up exactly when the head is a descendant and otherwise collects exactly the descendants |
| `ForkCode.SwitchForks` | `libraries/chain/controller.cpp:2355-2372` | popping one branch leads to the fork and applying the other, turned round, to exactly the new chain; the branches share no block |
| `ForkCode.Database.constructor` | `libraries/chain/fork_database.cpp:268-274` | a reset database has only its root, validated and head |
| `ForkCode.Database.Best` | `libraries/chain/fork_database.cpp:379` | gives the first block of the order |
| `ForkCode.Database.Add` | `libraries/chain/fork_database.cpp:348-383` | the new state and the error are those of `Added` |
| `ForkCode.Database.MarkValid` | `libraries/chain/fork_database.cpp:548-566` | the new state and the error are those of `MarkedValid` |
| `ForkCode.Database.Remove` | `libraries/chain/fork_database.cpp:522-541` | removes the block and all its descendants, or fails with nothing removed |
| `ForkCode.Database.AdvanceRoot` | `libraries/chain/fork_database.cpp:298-329` | the new state, also a half-finished one, and the error are those of `Advanced` |
| `ForkCode.Database.BlocksToRemove` | `libraries/chain/fork_database.cpp:308-313` | the walk ends and lists the ancestors down to the root, nearest first |
| `ForkCode.Database.RemoveEach` | `libraries/chain/fork_database.cpp:319-322` | removals one by one, stopping at the first failure |
| `ForkCode.Database.FetchBranchFrom` | `libraries/chain/fork_database.cpp:457-514` | fails exactly when a block is unknown; otherwise the two branches lead down to the last common ancestor, each complete and newest first |
| `ForkStore.Written` | `libraries/chain/fork_database.cpp:222-247` | the loop over two reverse iterators writes their merge |
| `ForkStore.AddEach` | `libraries/chain/fork_database.cpp:152-159` | the blocks of a file are added in order up to the first failure |
| `ForkStore.Open` | `libraries/chain/fork_database.cpp:149-184` | gives the database the file describes, or fails when a block is unlinkable, the head unknown or not the best |
| `ForkStore.OrderedLists` | `libraries/chain/fork_database.cpp:36-56` | walking the index lists every block once, preferred first |
| `ForkStore.MergeSorted` | `libraries/chain/fork_database.cpp:231-244` | merging two ascending lists by preference is ascending and repeats nothing |
| `ForkStore.SavedLists` | `libraries/chain/fork_database.cpp:211-247` | the file holds every block exactly once, less preferred ones first |
| `ForkStore.RoundTrip` | `libraries/chain/fork_database.cpp:113-257` | closing and opening restores exactly the same database when the irreversible number never falls along a branch, and otherwise the file cannot be opened |
| `ForkStore.Reopened` | `libraries/chain/fork_database.cpp:163-184` | the closing checks of open pass for every database in a reachable state |
| `ForkStore.AddedAllExact` | `libraries/chain/fork_database.cpp:155-161` | a list of blocks can be added exactly when each one's parent is there or earlier in the list and its id is new, and then exactly they are added |
| `ForkStore.LoadedExactly` | `libraries/chain/fork_database.cpp:152-184` | any file can be opened exactly when its blocks can be added, its head is there and no validated block beats it, or the head is the root when none is validated; the database is then what the file lists |
| `ForkStore.LoadedKeepsInv` | `libraries/chain/fork_database.cpp:163-184` | what is opened keeps the invariant exactly when its head is validated |
| `ForkStore.UnvalidatedHeadOpens` | `libraries/chain/fork_database.cpp:163-184` | files for which it does not |
| `ForkSync.SwitchedSettles` | `libraries/chain/controller.cpp:2334-2427` | switching to a block better than all others leaves it the one best head with its branch applied |
| `ForkSync.LoggedMovesUp` | `libraries/chain/controller.cpp:419-480` | logging what is irreversible moves the root up the head's branch to exactly the irreversible block of the head, unless it is there, and leaves exactly what is built on it |
| `ForkSync.LoggedSettles` | `libraries/chain/controller.cpp:419-480` | and keeps the head the best block, applied with its branch |
| `ForkSync.PushedExact` | `libraries/chain/controller.cpp:2209-2276` | a block pushed to any such node fails, changing nothing, exactly when it is known or its predecessor is not; if it is preferred to the head it is the new head, exactly its branch is newly applied, the root is at its irreversible block and exactly what is built on that is left; if not it is just kept |
| `ForkSync.CaughtUpExact` | `unittests/fork_test_utilities.cpp:11-18` | for any chain and any node, also one on another branch: catching up succeeds exactly when there is nothing to do, or the first block is new, can be built on and beats the head, and the irreversible number does not fall from there; then the head is the block asked for, the root the chain's block that this one makes irreversible, and the head's branch is exactly the chain between them |
| `ForkSync.HeadOnChain` | `unittests/fork_test_utilities.cpp:11-18` | a node whose head is on the chain has its root and its whole branch on it |
| `ForkSync.CaughtUpOnChain` | `unittests/fork_test_utilities.cpp:11-18` | a node on the chain catches up exactly when the irreversible number does not fall along it, and then holds the chain's blocks from its root to the head |
| `ForkPush.BranchIsNew` | `libraries/chain/controller.cpp:2355-2372` | the branch from the fork up is exactly what is not yet applied |
| `ForkPush.ApplyBranch` | `libraries/chain/controller.cpp:2367-2372` | marking a branch valid, oldest first, marks exactly its blocks and keeps the invariant |
| `ForkPush.PendingHeadOf` | `libraries/chain/fork_database.cpp:405-416` | finds the best block, validated or not |
| `ForkPush.SwitchForksTo` | `libraries/chain/controller.cpp:2355-2372` | fetching both branches and applying one gives the switched database, its own idea of the head included |
| `ForkPush.LogIrreversible` | `libraries/chain/controller.cpp:419-480` | the walk down to the irreversible block and the advance give the logged database |
| `ForkPush.PushBlock` | `libraries/chain/controller.cpp:2240-2276` | adding, switching and logging give what `Pushed` says |
| `ForkPush.PushBlocks` | `unittests/fork_test_utilities.cpp:11-18` | the loop ends, and gives what `CaughtUp` says |
| `ForkHeaders.TidyExactly` | `unittests/fork_test_utilities.cpp:11-18` | a node that receives nothing but one chain catches up exactly as long as the irreversible number does not fall along any branch of its database |
| `ForkHeaders.RunIsChain` | `libraries/chain/block_header_state_legacy.cpp:38-171` | the blocks of any run of headers are a chain |
| `ForkHeaders.ReceivedExactly` | `unittests/fork_test_utilities.cpp:11-18` | for every run of headers: a node at its first block gets to block n exactly when no change of schedule makes the irreversible number fall before, and exactly then its database can be closed and opened again |
| `ForkHeaders.CommittedExactly` | `libraries/chain/controller.cpp:1950-1954` | for every run of headers: the next block, committed by a node that got there, becomes the head exactly when the irreversible number does not fall |
| `ForkHeaders.FallStopsNodes` | `libraries/chain/controller.cpp:1954` | a run from genesis with a block that fails that assertion, that a node does not get to, and after which its database cannot be opened |
| `Dpos.NthAtLeast` | `libraries/chain/block_header_state_legacy.cpp:24-36` | the number at a position reaches a bound exactly when no more than that many are below it |
| `Dpos.LastIrreversibleExact` | `libraries/chain/block_header_state_legacy.cpp:24-36` | a block is irreversible exactly when more than two thirds of the producers imply it or a later one, the producer of the next block counted at the proposed one |
| `Dpos.RequiredExact` | `libraries/chain/block_header_state_legacy.cpp:76-77` | the confirmations required are the least number above two thirds of the schedule |
| `Dpos.MayConfirmExact` | `libraries/chain/block_header_state_legacy.cpp:51-57` | the range check refuses exactly the ranges with a block in them up to the producer's last one, and none that is longer than the chain |
| `Dpos.ConfirmedFacts` | `libraries/chain/block_header_state_legacy.cpp:92-114` | counts stay positive, and what is left is what comes after the block that was done |
| `Dpos.ConfirmLoop` | `libraries/chain/block_header_state_legacy.cpp:92-114` | the loop from the newest block down, with its break, gives the counts and the block that reached zero |
| `Dpos.ProposedGrows` | `libraries/chain/block_header_state_legacy.cpp:90-116` | the proposed irreversible number never falls and never passes the new block; the tracked counts fit behind it |
| `Dpos.LastIrreversibleBounds` | `libraries/chain/block_header_state_legacy.cpp:24-36` | irreversible is at most proposed, and does not fall while two thirds stand behind it |
| `Dpos.NextKeepsSane` | `libraries/chain/block_header_state_legacy.cpp:38-171` | every next header keeps irreversible, proposed and block number in order, and does not lower irreversible while it is supported |
| `Dpos.LibBelowNum` | `libraries/chain/block_header_state_legacy.cpp:116-117` | what a header makes irreversible is before its own block |
| `Dpos.NextKeepsSupport` | `libraries/chain/block_header_state_legacy.cpp:162-168` | without a change of schedule the new irreversible number is supported |
| `Dpos.StretchMonotone` | `libraries/chain/block_header_state_legacy.cpp:38-171` | along any chain of headers without a change of schedule irreversibility never falls and stays supported |
| `Dpos.SupportIsTwoThirds` | `libraries/chain/block_header_state_legacy.cpp:29-35` | supported means exactly that more than two thirds of the producers imply it |
| `Dpos.LibKeptExactly` | `libraries/chain/block_header_state_legacy.cpp:24-36` | the next block keeps irreversibility exactly when less than a third of the producers, its own aside, lag behind |
| `Dpos.RunIsSane` | `libraries/chain/block_header_state_legacy.cpp:38-171` | in every run from genesis the numbers of a header are in order |
| `Dpos.ImpliedBySchedule` | `libraries/chain/block_header_state_legacy.cpp:121-164` | from the first block on exactly the producers of the schedule imply a number |
| `Dpos.LibFallsExactly` | `libraries/chain/block_header_state_legacy.cpp:117-159` | in every run irreversibility falls exactly right after a change of schedule, when the producers of the new one that lag behind, the next one aside, are at least a third |
| `DposVotes.VoteCounts` | `libraries/chain/block_header_state_legacy.cpp:92-114` | keeping track of who confirmed changes nothing about the counts |
| `DposVotes.VoteFair` | `libraries/chain/block_header_state_legacy.cpp:92-114` | a round leaves every count honest exactly when it counts nobody again for a block that stays tracked |
| `DposVotes.VoteCompletes` | `libraries/chain/block_header_state_legacy.cpp:92-114` | a block that is done is the last tracked one that lacked one confirmation, and is within the range |
| `DposVotes.DoneIsEnough` | `libraries/chain/block_header_state_legacy.cpp:92-114` | with honest counts it is done with as many different producers as it needs exactly when its last vote is a new one |
| `DposVotes.VoteKeepsRecord` | `libraries/chain/block_header_state_legacy.cpp:117-164` | through a change of schedule, too, whoever confirmed a tracked block has produced since, or is out of the schedule until the block is done |
| `DposVotes.NextSound` | `libraries/chain/block_header_state_legacy.cpp:51-164` | every next header, range checked or not, keeps the record of confirmations matching its counts |
| `DposVotes.NextFaithfulExact` | `libraries/chain/block_header_state_legacy.cpp:51-164` | the counts of the blocks that stay tracked are honest after it, with a change of schedule or without, exactly when its producer confirms none of them again |
| `DposVotes.RoundExact` | `libraries/chain/block_header_state_legacy.cpp:92-114` | a round keeps the counts honest and completes a block with enough producers exactly when it reaches no block that the producer confirmed before |
| `DposVotes.RangeCheckExact` | `libraries/chain/block_header_state_legacy.cpp:51-57` | the range check guarantees that exactly when no more blocks are confirmed than there are, or every tracked block that the producer confirmed before has a later one that lacks just one confirmation |
| `DposVotes.ProposesExact` | `libraries/chain/block_header_state_legacy.cpp:92-116` | the block that becomes proposed is the last tracked one that lacked one confirmation, and has its confirmers exactly when the header confirms no more blocks than there are or its producer is new to that block |
| `DposQuorum.ConfirmersCount` | `libraries/chain/block_header_state_legacy.cpp:92-114` | a block has as many confirmers as confirmations exactly when nobody confirmed it again |
| `DposQuorum.RecordHolds` | `libraries/chain/block_header_state_legacy.cpp:38-171` | in every run, with overreaching headers too: the voters recorded for a tracked block are exactly those who confirmed it, its count is what it needs less the confirmations so far, and only overreaching headers repeat one |
| `DposQuorum.ProposedHasQuorum` | `libraries/chain/block_header_state_legacy.cpp:51-116` | in every run, through any changes of schedule: a block that becomes proposed has been confirmed by more than two thirds of the schedule of its own time exactly when no header so far that confirms more blocks than there are is by a producer that had confirmed the block before |
| `DposQuorum.TrackedExactly` | `libraries/chain/block_header_state_legacy.cpp:79-114` | from the first block on the tracked blocks are exactly those after the proposed one, the last 1024 of them |
| `DposQuorum.TrackedLacksQuorum` | `libraries/chain/block_header_state_legacy.cpp:79-114` | and none of them has been confirmed by more than two thirds: a block becomes proposed as soon as it can |
| `DposQuorum.IrreversibleHasQuorum` | `libraries/chain/block_header_state_legacy.cpp:24-36` | in every run every irreversible block became proposed before, with that many confirmers exactly under that condition; without such a header it always has them |
| `DposHistory.ImpliedExactly` | `libraries/chain/block_header_state_legacy.cpp:143-168` | in every run a producer implies what was proposed when it last produced, or, if it has not since it came in, what was irreversible then |
| `DposHistory.LastProducedExactly` | `libraries/chain/block_header_state_legacy.cpp:121-141` | and counts as having last produced its last block, or what was irreversible when it came in |
| `DposHistory.PendingExactly` | `libraries/chain/block_header_state_legacy.cpp:301-313` | a pending schedule is one that a block announced and that has not become irreversible since |
| `DposHistory.TakesOverExactly` | `libraries/chain/block_header_state_legacy.cpp:121-124` | it takes over with the first header that makes the announcing block irreversible |
| `DposHistory.NothingPending` | `libraries/chain/block_header_state_legacy.cpp:301-304` | with nothing pending the schedule stays, and what the block announces is pending |
| `DposRuns.PromotionLowersLib` | `libraries/chain/block_header_state_legacy.cpp:121-159` | a run from genesis in which irreversibility falls |
| `DposRuns.WrappedRangeLosesQuorum` | `libraries/chain/block_header_state_legacy.cpp:51-57` | a run from genesis in which every header passes the range check and one producer makes a block proposed that needs three |
| `Merkle.BatchRoot` | `libraries/chain/merkle.cpp:35-50` | the loop computes the reference root, and the empty digest for no leaves |
| `Merkle.LevelUpAt` | `libraries/chain/merkle.cpp:39-46` | each node of the next level is the hash of its two children in order, the last one with itself when their number is odd |
| `Merkle.PairInPlace` | `libraries/chain/merkle.cpp:39-46` | overwriting the front of the list while reading behind it gives the next level, the last node doubled when their number is odd |
| `Merkle.CompleteIsFinal` | `libraries/chain/include/eosio/chain/incremental_merkle.hpp:47-50` | appending never changes a node over a complete sub-tree, on any level |
| `Merkle.DepthIsBitWidth` | `libraries/chain/include/eosio/chain/incremental_merkle.hpp:18-23` | the depth of a tree is one more than the bits of its last index |
| `Merkle.CollapseExact` | `libraries/chain/include/eosio/chain/incremental_merkle.hpp:136-174` | on every level, collapsing upward gives the active nodes of the extended level whatever mix of left, right and partial nodes it meets |
| `Merkle.ActiveLast` | `libraries/chain/include/eosio/chain/incremental_merkle.hpp:115-120` | the last active node is the root |
| `Merkle.AppendExact` | `libraries/chain/include/eosio/chain/incremental_merkle.hpp:126-184` | the active nodes of the leaves and a digest lead to the active nodes of all of them, and are always enough to read from |
| `Merkle.Climb` | `libraries/chain/include/eosio/chain/incremental_merkle.hpp:127-174` | the loop over the depth does what the collapse defines |
| `Merkle.IncrementalMerkle.constructor` | `libraries/chain/include/eosio/chain/incremental_merkle.hpp:55-57` | a new tree has no leaves |
| `Merkle.IncrementalMerkle.Append` | `libraries/chain/include/eosio/chain/incremental_merkle.hpp:126-184` | after any number of appends the returned root is the batch root of all leaves |
| `Merkle.IncrementalMerkle.GetRoot` | `libraries/chain/include/eosio/chain/incremental_merkle.hpp:191-197` | the stored root is the batch root, the empty digest before the first append |
| `Conversions.ExponentIsUnbiased` | `libraries/builtins/fixunsdfti.c:20` | the wrapped 64-bit difference, narrowed to an int, is the true exponent |
| `Conversions.LeftShiftFits` | `libraries/builtins/fixunsdfti.c:36` | the left shift loses no bit in 128, and reaches the sign bit exactly at exponent 127 |
| `Conversions.BelowByExponent` | `libraries/builtins/fixunsdfti.c:28` | a magnitude is below a power of two exactly when its exponent says so, subnormal numbers included |
| `Conversions.FixUnsignedTruncates` | `libraries/builtins/fixunsdfti.c:15-37` | 0 for negative values, the integer part below 2^128, 2^128-1 from there on |
| `Conversions.FixUnsignedMonotone` | `libraries/builtins/fixunsdfti.c:15-37` | ordered patterns give ordered results, across exponents, shifts and saturation |
| `Conversions.FixSignedDefined` | `libraries/builtins/fixdfti.c:30-39` | the result is undefined exactly for magnitudes from 2^127 up to 2^128 |
| `Conversions.FixSignedUndefined` | `libraries/builtins/fixdfti.c:39` | it is undefined for 2^127 |
| `Conversions.FixSignedIsUnsigned` | `libraries/builtins/fixdfti.c:34-39` | below 2^127 it is the unsigned conversion of the magnitude with the sign |
| `Conversions.FixSignedTruncates` | `libraries/builtins/fixdfti.c:16-41` | toward zero below 2^127; the largest or least integer by sign from 2^128 on |
| `Conversions.FixSignedOdd` | `libraries/builtins/fixdfti.c:16-41` | flipping the sign bit negates the result |
| `Rounding.SignificantDigits` | `libraries/builtins/int_t.h:45-52` | counting zeros in two halves gives the number of significant bits |
| `Rounding.StickyClassifies` | `libraries/builtins/floatuntidf.c:43-53` | the three shifts keep the leading 53 bits and tell below half, half and above half apart |
| `Rounding.DropTwoRounds` | `libraries/builtins/floatuntidf.c:55-57` | or-ing, adding and dropping two bits rounds to nearest, ties to even |
| `Rounding.PartsDenote` | `libraries/builtins/floatuntidf.c:33-70` | significand and exponent denote the rounded integer, also when rounding carries into a new bit |
| `Rounding.PackedFields` | `libraries/builtins/floatuntidf.c:71-74` | the two 32-bit halves hold the exponent and the fraction without overlap |
| `Rounding.FloatRounds` | `libraries/builtins/floatuntidf.c:26-76` | every 128-bit integer converts to the finite double that is the nearest multiple of the spacing around it, ties to even |
| `Rounding.ThereAndBack` | `libraries/builtins/floatuntidf.c:26-76` | converting back gives the rounded integer, or 2^128-1 when rounding left the range |
| `NearestDouble.FloatIsNearest` | `libraries/builtins/floatuntidf.c:18-76` | no finite non-negative double is nearer to the integer than the one it converts to, and of two equally near ones it is that with an even fraction |
| `NearestDouble.RepresentableExactly` | `libraries/builtins/floatuntidf.c:26-76` | an integer is the value of some double exactly when it is a multiple of the spacing around it |
| `NearestDouble.RoundTripExact` | `libraries/builtins/floatuntidf.c:26-76` | there and back is the identity exactly on the integers that are values of doubles, and on 2^128-1 |
| `ForkUtilities.Tester.constructor` | `unittests/fork_test_utilities.cpp:20-32` | a chain at a height, with its producers |
| `ForkUtilities.Tester.ProduceBlock` | `unittests/fork_test_utilities.cpp:26-30` | producing adds one block |
| `ForkUtilities.ProduceEmptyBlocksUntil` | `unittests/fork_test_utilities.cpp:20-32` | for any predicate with its own state: found after the least number of blocks, up to the maximum, at which it holds; not found exactly when it holds at none, after producing all |
| `ForkUtilities.ProduceUntilTransition` | `unittests/fork_test_utilities.cpp:35-43` | stops at the first height where one producer hands over to the other |
| `ForkUtilities.ErasingState` | `unittests/fork_test_utilities.cpp:45-54` | after any number of samples the captured set holds exactly the expected producers not seen |
| `ForkUtilities.ErasingHit` | `unittests/fork_test_utilities.cpp:45-54` | the erasing predicate holds exactly when all expected producers have been sampled |
| `ForkUtilities.ProduceUntilBlocksFrom` | `unittests/fork_test_utilities.cpp:45-54` | found after the least number of blocks at which all expected producers have been seen; not found only after the maximum, with some unseen throughout |

## Left out

- The regular expressions for fields, class heads, reflection macros and comments, and the text rewriting before them: the engine would swamp the logic; field lists, marks and class heads are inputs.
- The derived reflections of `tools/validate_reflection.py:502-506`: easy additions of more fields.
- EnumScan.AddFields: works on the rest of the body rather than on a cursor into the whole file, and word characters are the ASCII ones.
- LookupReading.Table.Enter: scopes are kept by number in one table rather than as linked objects, so sharing between objects is not captured; class heads and aliases come from patterns and are inputs.
- ScopeReader.Scope.NextScope: does not collect the fields and aliases between two scopes, which the class version does on the way.
- Arguments, file walking, debug output and exit codes of the script: input and output.
- Validation.Finished: takes the ignored names already passed as a ghost argument, since the assertions after the loop do not look at them.
- The assertions on a root that is not set and on null blocks, the protocol-feature validator, and the locks of the fork database: every state modelled has a root, and every method holds its lock throughout.
- The magic number, version and field encodings of the fork database file: a file is its root, blocks and head.
- ForkPush.LogIrreversible: walks to the irreversible block directly; fetch_branch, search_on_branch, get_block and the block log are easy walks, look-ups and output.
- ForkSync.PushedExact: every block applies; recovering when one fails is left out, since applying is execution of transactions.
- ForkPush.SwitchForksTo: the blocks taken back and applied on the chain database are not modelled, only their marks; SwitchForks states which they are.
- Replay, irreversible read mode and the check of a configured last block: other callers of the same operations.
- Signatures, header extensions, schedules waiting to become irreversible beyond what promotes them, and timestamps: not needed for the counts.
- Sha256 and the marking of left and right nodes in `libraries/chain/merkle.cpp:14-32`: the hash of a pair is arbitrary. Trees of 2^63 leaves or more, where the depth overflows.
- The conversions from and to single and quadruple precision and from signed integers: the same shape with other constants.
- Conversions.FixSignedTruncates: says nothing from 2^127 up to 2^128, where C gives no meaning.
- Resource limits, authorization, the contract interface, snapshots, the network layer, benchmarks and the remaining tests.
