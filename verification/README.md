# librxvm in Dafny

A model of librxvm, a small regular-expression compiler with a virtual machine behind it, and
proofs about it. The model follows the library from the text of a pattern to the answer of a match
or a search, and each stage is proved against what it is for:

| stage | source | files |
|---|---|---|
| the expression language and its meaning | tests/grammar.txt | Regex |
| tokens | librxvm/lex.c | Lexer, LexShapes, Sentences |
| one-pass compiler | librxvm/stage1.c, vmcode.c, stack.c | Context, Compilation, Errors, Stage1, Stage1Main, WellFormed, InstList |
| what the code means | librxvm/vmcode.c | Program, CodeGen, CodeMeaning |
| linker, jump chains | librxvm/stage2.c | Stage2 |
| lock-step machine | librxvm/vm.c | ThreadSets, Vm |
| literal fast path, match, search | librxvm/rxvm.c | SimpleMatch, LiteralSearch, Rxvm, Searching |
| when search is leftmost | librxvm/vm.c | LeftmostSearch, SearchRace |
| buffered Horspool search | librxvm/bmh.c | Bmh |
| longest fixed substring | librxvm/lfix.c, lfix_to_str.c | Lfix, FixedText, FixedFails, FixedLongest |
| random generator | librxvm/randinput.c | RandInput, RandReach |
| decimal printing, growing buffer | librxvm/string_builder.c | StringBuilder |

The reference is `Regex.MatchRe`: what an expression of the grammar matches between two positions
of a text, anchors reading the whole text as lines, repetition bodies possibly empty. Nothing in
it mentions compilation. A program means the runs of the small-step relation `Program.Step`.

The main results:

* `Rxvm.EndToEnd`: a sentence of the grammar compiles exactly when none of its counts allows zero
  repetitions only, and rxvm_match then answers, for every input, whether the whole input is in
  the language of the sentence.
* `Compilation.SentenceCode`: one pass over the tokens, with the shared literal buffer, the stack
  of groups, duplicated fragments and jumps patched later, emits what the recursive code generator
  gives for the tree.
* `LexShapes.LexesExactly`, `Errors.RefusedExactly`, `Errors.CompilesExactly`: for every text, sentence
  or not, which tokens it is cut into and where the lexer stops with which error, by its characters
  alone; which token is refused with which error, by what stands in front of it; and, unless parentheses
  are closed too often, exactly which texts compile.
* `Vm.Threads.Execute`: the lock-step machine, restarts and nongreedy mode included, leaves the
  outcome specified by the sets of instructions that nondeterministic runs can be at, within a
  linear number of dispatches.
* `Stage2.CollapsePreserves`: shortening the jump chains changes no accepted stretch;
  `Rxvm.ChainsShortened`: in the program of a sentence with two bars in one group none is left.
* `WellFormed.CompiledOk`: whatever the pattern, a program that comes out is well-formed.
* `Bmh.Searcher.Search`, `Bmh.FindExact`: across any number of refills the search of a file ends
  where the specification says, and that is the first occurrence in every file exactly when no
  character moves the pattern too far; if case matters none does.
* `FixedText.FixedIsBest`, `FixedText.FixedNecessary`: the recorded substring spells the longest
  fixed run of the expression exactly when no backslash is spelled in that run, and then lies in
  every match unless the run ends at a literal with a range from zero; patterns with newlines, which
  end the counting, are covered. `FixedLongest.LongestRecorded`: no stretch of literals outside groups is
  longer, and of equally long ones the first is taken. `FixedFails.ReadsPastExact`: exactly when copying
  the substring leaves the pattern.
* `LiteralSearch.SearchExact`, `LiteralSearch.HitsSound`: exactly when the search for a literal
  expression reports the leftmost occurrence in every input, and exactly when what it reports is an
  occurrence in every input.
* `Searching.SearchExact`: exactly what a hit or a miss of program search is worth.
  `LeftmostSearch.LeftmostExact`, `SearchRace.LeftmostGuarded`: exactly when the search by a program
  without anchors is leftmost in every text; `LeftmostSearch.ApartSentence`: a condition that is
  enough with anchors, too.
* `RandReach.GeneratedExactly`: the texts that come out of the generator for some random values are
  exactly those of the runs whose characters it can make.

Some of what one expects of the code is false; the files keep the code's behaviour, give inputs, and
say exactly when it is true:

* Literal search goes on behind the last mismatch, so that `aab` is missed in `aaab`
  (`LiteralSearch.SearchMisses`). It is leftmost for every input if and only if, from where its first
  literal comes again on, the pattern repeats itself, and the pattern as written starts with an even
  number of backslashes (none is an even number). With an odd number, as in `\*`, the code compares
  the backslash itself after a mismatch and reports a stretch one character too long
  (`LiteralSearch.LeadingBackslash`, for every such pattern); with one exception if case is ignored:
  '<' folds to a backslash, so a pattern of these two alone cannot be told from backslashes.
* Program search goes on where a failed attempt died, so that `aab+` is missed in `aaab`
  (`Searching.SearchSkips`). Without anchors it is leftmost in every text if and only if no word of the
  program overtakes an attempt, which can be checked on the program one character at a time as a race
  between sets of instructions. With anchors where a run can be depends on the characters around it,
  and only the condition of `LeftmostSearch.Apart` is proved to be enough; it is not necessary
  (`SearchRace.ApartNotNeeded`).
* The fixed substring is wrong before {0,m} and for escaped backslashes
  (`FixedFails.ZeroRangeFails`, `FixedFails.BackslashFails`). For each backslash spelled in the run
  lfix_to_str takes one more character from behind it; it reads behind the terminator of the pattern if
  and only if the run spells more backslashes than there are other characters after it, the terminator
  included (`FixedFails.ReadsPastExact`, for every sentence). If the pattern is not all literals and
  starts with a newline, the unsigned counter wraps around: nothing is recorded, or, exactly if there is
  no bar outside groups and the leading literals end at one that may be left out, a length of 2^32 - 1
  with an empty substring (`FixedFails.NewlineWraps`).
* A group with nothing in it stays on the stack of groups if no operator follows. A text with such a group
  is refused although all its parentheses are closed, and no other text is refused without a reason one
  expects (`Errors.CompilesExactly`); a closing parenthesis too many may close the group a second time,
  so that `()a)` compiles (`Errors.HollowCloses`).
* A newline ends the counting of the fixed substring, but the run in front of it still loses its last
  character to an operator behind it (`FixedLongest.HeldLosesLast`).
* With ICASE the shift table still distinguishes case, so that ab is missed in xAb (`Bmh.IcaseMisses`).

The README.rst of the library says only that expressions are not POSIX; where its grammar and its
code differ (the code also accepts an empty side of a bar, and takes '^' anywhere in brackets as
negation) the code is followed.

## Model

| member | source | states |
|---|---|---|
| Regex.OnlyZeroMeans | librxvm/vmcode.c:206-222 | the counts the compiler refuses are exactly those that allow no repetition but the empty one |
| Regex.CharEqMeans | librxvm/vm.c:9 | with ICASE two characters are alike exactly if they are the same or 32 apart on the two sides of 'Z'; else only if they are the same |
| Regex.LettersAlike | librxvm/vm.h:6-7 | with ICASE each letter is like itself in the other case and like no other letter |
| Lexer.Scanner.Lex | librxvm/lex.c:63-184 | the state machine over characters returns the specified token, moves the input pointer past it and switches class mode, error tokens included |
| Lexer.LexAtOk | librxvm/lex.c:155-175 | the text of any repetition token has a digit, only digits and commas, and at most one comma |
| LexShapes.CallExact | librxvm/lex.c:63-184 | for every text, place and mode, which characters make one call return which token, ending where, and which make it fail with which error |
| LexShapes.LexesExactly | librxvm/lex.c:63-184 | a text gives some tokens and then the end, or an error, if and only if it is the spellings of these tokens one behind the other up to its end, or up to the shape that the error names |
| Sentences.SentenceLexes | librxvm/lex.c:63-184 | printing any tree of the grammar and lexing the text gives the tree's own tokens and the end |
| Sentences.LexSet | librxvm/lex.c:78-153 | a written set, negated or not, with ranges and escapes, lexes to its items between brackets, class mode off again behind it |
| Sentences.LexCounts | librxvm/lex.c:155-175 | each of the four brace forms lexes to one repetition token holding the text between the braces |
| Stage1.ParseRep | librxvm/stage1.c:111-136 | the loop over the characters yields the two numbers and the markers for a missing or empty field |
| Stage1.Compiler.CatFromItem | librxvm/vmcode.c:45-85 | the operand's instructions, moved or copied one by one, are appended to the target and the buffer keeps them for the next copy |
| Stage1.Compiler.CodeRepRange | librxvm/vmcode.c:106-152 | the target grows by the required copies and the nested optional ones, bounds in either order; equal zero bounds are refused |
| Stage1.Compiler.CodeRepMore | librxvm/vmcode.c:155-174 | n - 1 copies and one that may repeat |
| Stage1.Compiler.CodeRepLess | librxvm/vmcode.c:176-204 | up to m nested optional copies; zero is refused |
| Stage1.Compiler.CodeRepN | librxvm/vmcode.c:206-222 | n copies; zero is refused |
| Stage1.Compiler.CodeOne | librxvm/vmcode.c:224-237 | the operand and a branch back to its start |
| Stage1.Compiler.CodeZero | librxvm/vmcode.c:239-257 | the same behind a branch that may skip it |
| Stage1.Compiler.CodeOneZero | librxvm/vmcode.c:259-273 | the operand behind a branch that may skip it |
| Stage1.Compiler.AttachDanglingAlt | librxvm/vmcode.c:92-104 | a waiting jump gets the distance to the end of its list and waits no more; otherwise nothing changes |
| Stage1.Compiler.CodeAlt | librxvm/vmcode.c:275-305 | the buffer joins the target, an earlier waiting jump is patched, a branch goes in front of everything, a new jump waits behind, a second bar notes a chain |
| Stage1.Compiler.ProcessOpRep | librxvm/stage1.c:64-109 | which of the count forms yields which code, and which are refused |
| Stage1.Compiler.ProcessOp | librxvm/stage1.c:141-222 | literals before the operand, then the operator's code, join the target; the buffer is emptied and a closed group dropped; BADOP without an operand |
| Stage1.Compiler.MainState | librxvm/stage1.c:227-327 | the state after any token outside brackets is the specified one, errors included |
| Stage1.Compiler.ExpandCharRange | librxvm/stage1.c:329-360 | both ends and every character between them are added, whichever end is higher |
| Stage1.Compiler.CharcState | librxvm/stage1.c:366-392 | the state after any token between brackets; the closing one yields a single class instruction, none for an empty class |
| Stage1.Compiler.HandleToken | librxvm/stage1.c:535-562 | one turn of the token loop |
| Stage1.Compiler.End | librxvm/stage1.c:564-605 | what is left joins the program, the waiting jump is patched, Match is last; open groups and classes are errors |
| Stage1Main.CompileSimpleBacklog | librxvm/stage1.c:440-472 | taking the leading literals from the pattern text leaves the state that taking their tokens one by one would |
| Stage1Main.Compile | librxvm/stage1.c:498-606 | for every pattern text, the result of stage 1: kept as text if all literals, else the code or the error of the token fold |
| Compilation.SentenceCode | librxvm/stage1.c:141-327 | one pass over a printed sentence emits the recursively generated code of its tree and Match, all jumps patched, groups closed, and notes chains exactly if some group has a second bar; or BADOP exactly when some count allows zero repetitions only |
| Errors.RefusedExactly | librxvm/stage1.c:227-392 | for every text in which nothing but an operator follows a group with nothing in it: the first token that is refused decides the error (a closing parenthesis with none open, a closing bracket with none open, an operator with no operand directly before it, counts of zeros, a token that no set can hold); else the lexer's error; else ECLASS or EPAREN if something is left open; else it compiles |
| Errors.CompilesExactly | librxvm/stage1.c:498-606 | every text in which parentheses are not closed more often than opened: it compiles if and only if it ends without lexer error, nothing is refused, nothing is left open and an operator follows every group with nothing in it |
| Errors.EveryText | librxvm/lex.c:63-184 | every text has the tokens, stops and end that these two speak of |
| Errors.HollowCloses | librxvm/stage1.c:235-241 | an empty group, a character and a closing parenthesis compile, to that character |
| Compilation.UnionSteps | librxvm/vmcode.c:275-305 | after any number of bars the emitted code with its one waiting jump is the code of the tree read so far |
| Compilation.GroupSteps | librxvm/stage1.c:283-314 | a parenthesised expression leaves its whole code as the waiting operand and the outer lists as they were |
| Compilation.SetSteps | librxvm/stage1.c:366-392 | the tokens of a set leave one class instruction with the set's members, or its negation |
| Compilation.QuantToken | librxvm/stage1.c:64-109 | the token of a written quantifier gives its operand the quantifier's code, or is refused when it allows no repetition |
| Compilation.WrittenCounts | librxvm/stage1.c:111-136 | the counts read from the printed braces are the counts written |
| CodeGen.ReCodeOk | librxvm/vmcode.c:92-347 | generated fragments keep their targets inside, jumps and skip branches forward, classes non-empty |
| CodeMeaning.ThroughAlt | librxvm/vmcode.c:275-305 | wherever it is placed, an alternation can be run through exactly when one of its sides can |
| CodeMeaning.StarMeaning | librxvm/vmcode.c:239-257 | star code is run through exactly by any number of matches of its body, empty ones included |
| CodeMeaning.PlusMeaning | librxvm/vmcode.c:224-237 | plus code is run through exactly by one or more matches of its body |
| CodeMeaning.OptionalsMeaning | librxvm/vmcode.c:176-204 | the nested optional copies are run through exactly by up to n matches |
| CodeMeaning.QuantMeaning | librxvm/vmcode.c:106-273 | the code of every quantifier form is run through exactly by the repetitions the form stands for |
| CodeMeaning.MembersMean | librxvm/vm.c:11-20 | the expanded class string holds exactly the characters of the set's items and ranges, up to case folding |
| CodeMeaning.ReMeaning | librxvm/vmcode.c:92-347 | the fragment of any tree, placed anywhere, goes from its first instruction at i to just past its end at j exactly when the tree matches [i, j) |
| CodeMeaning.ProgramMeaning | librxvm/vmcode.c:337-347 | the linked program accepts a stretch exactly when the tree matches it |
| WellFormed.CompiledOk | librxvm/stage1.c:498-606 | for any text that compiles, sentence or not: Match only and always last, targets in range, jumps and second branch targets strictly forward, no empty class |
| WellFormed.FineTake | librxvm/stage1.c:227-392 | every token keeps the lists of the compiler well-formed but for the jump that waits |
| Stage2.Assemble | librxvm/stage2.c:68-108 | the array holds the code with absolute targets, chains shortened when there are any |
| Stage2.FollowChain | librxvm/stage2.c:6-27 | the chain array stays in bounds, holds only jumps that lead where the first one leads, and its last jump leads out |
| Stage2.OptimiseChain | librxvm/stage2.c:6-37 | the jumps of one chain go straight to its end and nothing else changes |
| Stage2.OptimiseChains | librxvm/stage2.c:39-66 | every jump goes straight to the end of its chain; all else is as before |
| Stage2.CollapseOk | librxvm/stage2.c:39-66 | the shortened program is well-formed and no jump leads to a jump |
| Stage2.CollapsePreserves | librxvm/stage2.c:39-66 | the shortened program accepts exactly the same stretches of every text |
| Vm.AddThread | librxvm/vm.c:22-28 | the list stays duplicate-free, in bounds and in step with its lookup table, and gains just the one instruction |
| Vm.Threads.IsSol | librxvm/vm.c:30-37 | the look-back character decides the line start |
| Vm.Threads.IsEol | librxvm/vm.c:39-46 | the current character decides the line end |
| Vm.Threads.Dispatch | librxvm/vm.c:85-136 | one instruction adds its targets that need no character to the current list, its successor to the next one, and records a match |
| Vm.WalkEnd | librxvm/vm.c:84-137 | a list closed under the steps that read nothing is the set of all instructions runs can be at; the next list their one-character successors |
| Vm.Threads.RunThreads | librxvm/vm.c:84-137 | the loop over a list that grows while it is walked ends with exactly the threads of the position and their successors, in at most one dispatch per instruction |
| Vm.Threads.Execute | librxvm/vm.c:58-183 | the outcome is the specified one in match and search mode, greedy or not, and dispatches number at most program size times input length plus one, twice that when searching |
| Rxvm.Compile | librxvm/rxvm.c:26-101 | text or program, by stage 1 and stage 2 |
| Rxvm.SentenceBuilt | librxvm/stage2.c:68-108 | the program of a sentence is the linked code of its tree, with chains shortened exactly if some group has a second bar |
| Rxvm.ChainsShortened | librxvm/stage2.c:101-102 | then no jump of the program leads to a jump |
| Rxvm.CompiledForward | librxvm/rxvm.c:72-91 | every program that reaches the machine is well-formed, shortened or not |
| Rxvm.MatchOutcome | librxvm/rxvm.c:197-233 | the result test of rxvm_match is passed exactly when the program accepts the whole input |
| Rxvm.Matching | librxvm/rxvm.c:197-233 | 1 exactly when the whole input is accepted, by the program or as the text without escapes; else 0 |
| Rxvm.LiteralSentence | librxvm/rxvm.c:111-147 | for an expression of literals, equality with the unescaped text is exactly the language of the expression |
| Rxvm.EndToEnd | librxvm/rxvm.c:197-233 | a sentence compiles exactly when no count allows zero repetitions only, and the compiled form matches an input exactly when the sentence does |
| SimpleMatch.Run | librxvm/rxvm.c:111-147 | match mode succeeds exactly on inputs that start with the unescaped pattern; search mode gives the specified scan |
| SimpleMatch.Restart | librxvm/rxvm.c:129-139 | after a mismatch the character is compared once more with the first of the pattern, and the reported start moves to it or behind it |
| LiteralSearch.LeadOkCase | librxvm/rxvm.c:135-138 | if case matters, the condition on the beginning of the pattern is that an even number of backslashes is written there |
| LiteralSearch.RawIsScan | librxvm/rxvm.c:111-147 | under that condition the search over escaped text equals the scan over its literals, from any state of the loop |
| LiteralSearch.ScanOccurs | librxvm/rxvm.c:111-147 | what the scan reports is an occurrence, whatever the pattern |
| LiteralSearch.HitsSound | librxvm/rxvm.c:111-147 | in every input what is reported is an occurrence, if and only if the condition on the beginning of the pattern holds |
| LiteralSearch.SearchExact | librxvm/rxvm.c:111-147 | in every input the leftmost occurrence is reported, and nothing only if there is none, if and only if the pattern repeats itself from the first recurrence of its first literal on and its beginning is as above |
| LiteralSearch.OthersDefeated | librxvm/rxvm.c:111-147 | for each other pattern an input on which the search is wrong |
| LiteralSearch.SearchMisses | librxvm/rxvm.c:111-147 | aab is missed in aaab |
| LiteralSearch.LeadingBackslash | librxvm/rxvm.c:135-138 | for every pattern that does not meet that condition, an input in which a stretch one character too long is reported |
| Searching.SearchExact | librxvm/vm.c:142-164 | a hit is accepted where it stands, the longest from its start or the shortest if not greedy, at the first position tried that has one; a miss means none tried has one |
| Searching.Search | librxvm/rxvm.c:149-195 | the reported start and last character are those of the outcome, and 0 is returned when there is none; a literal hit is an occurrence if the pattern starts as it should, and the leftmost one if it also repeats itself |
| Searching.LiteralMeaning | librxvm/rxvm.c:111-147 | an expression of literals matches exactly the stretches where its literals occur |
| Searching.SentenceMeaning | librxvm/rxvm.c:26-101 | the compiled program of a sentence accepts a stretch of any text exactly when the sentence matches it there |
| Searching.HitIsMatch | librxvm/rxvm.c:149-195 | a hit of a compiled sentence is a match of the sentence in its real context and the longest, or shortest, from its start |
| Searching.AabBuilt | librxvm/rxvm.c:26-101 | the program for aab+ |
| Searching.SearchSkips | librxvm/vm.c:157-163 | on aaab that program accepts from 1 to the end, yet the search reports nothing |
| LeftmostSearch.ApartLeftmost | librxvm/vm.c:142-164 | if no character that starts a match can also be read later on, the search is leftmost in every text, anchors or not, with any flags and from anywhere |
| LeftmostSearch.ApartSentence | librxvm/rxvm.c:149-195 | then rxvm_search reports, for a compiled sentence, a match that starts no later than any other, if there is one |
| LeftmostSearch.LeftmostExact | librxvm/vm.c:142-164 | without anchors the search is leftmost in every text if and only if no word of the program overtakes an attempt |
| SearchRace.LeftmostGuarded | librxvm/vm.c:142-164 | without anchors it is so if and only if the program matches the empty text or there is a set of races, closed under reading one character, in which no run behind is at Match |
| SearchRace.ApartNotNeeded | librxvm/vm.c:142-164 | the program of k+ is leftmost in every text although k is read at the beginning and later |
| Bmh.Shift | librxvm/bmh.c:104-121 | a shift never passes a place where the character stands in the pattern |
| Bmh.ShiftSafe | librxvm/bmh.c:78-80 | after a mismatch, moving on by the table's amount passes no occurrence, with ICASE or not, if no character moves the pattern too far |
| Bmh.CaseMovesSafe | librxvm/bmh.c:104-121 | if case matters none does |
| Bmh.FindExact | librxvm/bmh.c:64-95 | the search finds the first occurrence from every place of every file if and only if none does (or the pattern ends with a character that no such file has) |
| Bmh.IcaseMisses | librxvm/bmh.c:78-80 | with ICASE ab is missed in xAb |
| Bmh.Searcher.constructor | librxvm/bmh.c:104-121 | the table holds, for each character, how far the pattern may move; the buffer is filled from the file offset |
| Bmh.Searcher.Fill | librxvm/bmh.c:30-46 | the buffer is again a window of the file, the kept characters in front, EOF after the file's end |
| Bmh.Searcher.Skip | librxvm/bmh.c:48-62 | the position advances by that many characters of the file, refilled or not, and the character there is returned |
| Bmh.Searcher.Compare | librxvm/bmh.c:76-82 | the right-to-left loop succeeds exactly on an occurrence |
| Bmh.Searcher.TableShift | librxvm/bmh.c:78-80 | moving on by what the table holds for the character, or by the whole pattern for one it has no slot for, leaves unchanged what the search comes to |
| Bmh.Searcher.Search | librxvm/bmh.c:64-95 | 1 with the place the specification gives, 0 if it gives none, across all refills; so 1 with the first occurrence at or after the offset, 0 only if there is none, if case matters or no character moves the pattern too far; a hit is an occurrence in any case |
| Lfix.FixedPart | librxvm/stage1.c:211-213 | driving the unsigned counters over the tokens of any pattern yields the specified places, alternation outside groups disabling them |
| Lfix.LfixToStr | librxvm/lfix_to_str.c:5-23 | the buffer of the allocated size receives the next characters that are no backslash, the terminator of the pattern among them if it comes to that, and a terminator; with an end that is negative as an int it receives nothing else |
| FixedText.FixedIsBest | librxvm/stage1.c:251-264 | for any sentence but those that go on from a newline in front, whatever flag an earlier compilation left: if places are recorded, what they stand for is the longest fixed run of the tokens up to the first newline (or beyond it, if it is the second of the leading literals and not all are literals: it is then counted like any other) if and only if no backslash is spelled in it; without one they are recorded for every run of two characters or more, and enough characters follow |
| FixedLongest.LongestRecorded | librxvm/lfix.c:32-36 | if two or more literals stand outside groups and brackets, in front of any newline, and what follows does not take the last one away, at least as many characters are recorded; if just as many, then those of such a stretch that ends no later |
| FixedLongest.RecordedStands | librxvm/lfix.c:15-41 | what is recorded is as long as the longest run, and that run stands among the tokens, outside groups and brackets; with a bar there is none |
| FixedLongest.HeldLosesLast | librxvm/stage1.c:251-264 | of two literals, a newline and a literal with a star nothing is recorded |
| FixedText.FixedNecessary | librxvm/stage1.c:591-599 | the recorded substring lies in every match of the sentence, if no backslash is spelled in the longest run and the run does not end at a literal with a range from zero |
| FixedText.FixedInInput | librxvm/rxvm.c:197-233 | an input that rxvm_match accepts then contains the substring recorded for its pattern |
| FixedFails.ZeroRangeFails | librxvm/stage1.c:69-73 | for abc{0,m}, any characters but newlines, the substring abc is recorded though ab alone matches |
| FixedFails.LooseNotNeeded | librxvm/stage1.c:69-73 | for abc{0,m}abc the run before the range is the longest, and every match contains it |
| FixedFails.BackslashFails | librxvm/lfix_to_str.c:14-19 | of an escaped backslash, a character and a dot, the character and the dot are returned as if both were literals, though a backslash, the character and any other match |
| FixedFails.SlashesReadPast | librxvm/lfix_to_str.c:13-20 | for two escaped backslashes and a dot the dot and the terminator are copied; for more of them the loop reads behind the terminator |
| FixedFails.LiteralsStay | librxvm/stage1.c:474-494 | for a pattern of literals alone the size is that of the literals up to the first newline, one less for each backslash, and the loop stays in front of the terminator |
| FixedFails.NewlineWraps | librxvm/stage1.c:440-472 | for the sentences that start with a newline and are not all literals, exactly when something is recorded: then 2^32 - 1 characters, of which none is copied, because the end is negative as an int |
| FixedFails.ReadsPastExact | librxvm/lfix_to_str.c:13-20 | for every sentence: the loop reads behind the terminator if and only if more backslashes are spelled in the longest run than other characters follow it, counting the terminator, and copies the terminator if and only if they are equally many |
| RandInput.FindNChar | librxvm/randinput.c:22-53 | a printable character outside the class, and the terminator only if there is none |
| RandInput.Generate | librxvm/randinput.c:55-165 | for every sequence of random values the text is that of the specified walk: accepted as a whole by an anchor-free program; and after the limit fewer instructions follow than the program has |
| RandReach.GeneratedExactly | librxvm/randinput.c:55-165 | a text below the limit comes out for some random values if and only if a run of the program makes it: the written character, a member, a printable one that is no member, any printable one or white space but a newline, and newlines at anchors |
| RandReach.PrintableGenerated | librxvm/randinput.c:101-154 | every printable text that a program without anchors accepts comes out for some random values |
| RandReach.SentenceGenerated | librxvm/randinput.c:55-165 | so does every printable text in the language of a sentence without anchors |
| RandInput.GenerateLiterals | librxvm/randinput.c:55-165 | an expression of literals yields the text it matches |
| StringBuilder.Utoa | librxvm/string_builder.c:72-108 | the decimal digits and a terminator, or -1 and an untouched buffer when they do not fit, but for zero in a size of one, where both characters are written |
| StringBuilder.CountsReadBack | librxvm/stage1.c:111-136 | counts printed in decimal are read back by the compiler in all four brace forms |
| StringBuilder.Builder.Enlarge | librxvm/string_builder.c:10-23 | the text is kept and the room grows by whole blocks |
| StringBuilder.Builder.AddString | librxvm/string_builder.c:53-70 | at most n characters of the text, up to its end, are appended and the blocks added are always enough |
| StringBuilder.Builder.AddNumber | librxvm/string_builder.c:110-117 | the decimal digits are appended |
| InstList.List.PointNewHead | librxvm/stack.c:34-45 | the item becomes the newest and every other link stays |
| InstList.List.PointNewTail | librxvm/stack.c:47-58 | the item becomes the oldest |
| InstList.List.Cat | librxvm/stack.c:100-112 | four assignments make one list of the items of both |
| InstList.List.CatFromItem | librxvm/vmcode.c:45-53 | relinking item by item appends the rest of the other list, though each step overwrites links that are still to be followed |

## Left out

- Searching.SearchExact: positions the search skips after a failed attempt are not searched by the code, so a match there may be missed; `Tried` says which positions those are.
- LeftmostSearch.ApartLeftmost: enough but not necessary. With anchors no exact condition is given, because where a run can be then depends on the characters around the match; without anchors SearchRace.LeftmostGuarded is exact.
- LiteralSearch.RawIsScan: patterns that start with an odd number of backslashes, for which it is false; SimpleMatch.Run gives their search exactly, and LiteralSearch.LeadingBackslash what is wrong with it.
- Bmh.Searcher.Search: files must be free of '~' and of the EOF character, and patterns must have only characters with a slot in the table before their last one.
- FixedText.FixedNecessary: one direction only. A run with a backslash or before a range from zero may lie in every match all the same because of some other part of the expression, which is a question about the language and not about the run (FixedFails.LooseNotNeeded). Patterns that start with a newline and are not all literals are covered by FixedFails.NewlineWraps; those too long for an int are left out.
- RandInput.Generate: acceptance is stated for anchor-free programs whose negated classes leave out a printable character; for anchors the code writes newlines that the program does not read, so that RandReach.GeneratedExactly says which texts come out but not that they are accepted. With a generosity or a whitespace of 0, or above 100, one side of the choice is never taken. Walks that need more random values than are given are abandoned.
- StringBuilder.Utoa: a buffer of just one character for the number zero, past the end of which the code would write.
- StringBuilder.Builder.AddNumber: numbers of twenty digits and more, which no unsigned int has.
- Lfix.LfixToStr: callable only when nothing behind the terminator of the pattern is read, which the code does not check; FixedFails.ReadsPastExact says for which patterns the code reads on.
- Errors.RefusedExactly: texts in which something other than an operator follows a group with nothing in it. Errors.CompilesExactly says of them that they are refused if parentheses are not closed too often, but not with which error; if they are, some compile (Errors.HollowCloses).
- Stage1.Compiler.ProcessOp: after some patterns that are no sentences of the grammar the code follows a stale operand pointer; the model answers with the error Undefined there, as for a class range that reaches the DEL character, where the code's loop does not end.
- Stage1.Compiler.CatFromItem: in the compiler the instruction lists are values; how their nodes are linked, shared and relinked is modelled by InstList alone.
- Stage1.Compiler.CharcState: the static flag of a negated class is kept in the compiler state, so that one left set by an earlier compilation that failed is not modelled.
- Integer widths: repetition counts, list sizes and positions are unbounded; only the counters of the fixed substring are 32-bit unsigned numbers, and ints in lfix_to_str.
- Characters of 128 and above, whose sign depends on the platform, and the NUL character inside patterns.
- rxvm_fsearch, bmh_partial, getchar_file, seek_to_start_of_line and seek_to_start_of_match: reading lines of a FILE backwards and forwards around the machine, the input limit of vm_execute included.
- Allocation failure, freeing, and the printing of programs and error codes.
- setop.c: plain constructors, here the datatype of instructions.
- The Python bindings, the examples, the scripts and the tests.
