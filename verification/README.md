# Grammar sampling, batching and decoding

A Dafny model of three connected parts of the inference engine in `rebirth/src/llama.cpp/src`, with
proofs. `dafny verify dfyconfig.toml` checks the whole project.

**Grammar engine** (`llama-grammar.cpp`). A grammar text becomes a table of flat rules. The rules
run as a nondeterministic pushdown automaton: a set of stacks whose tops wait for a character class
or a token. The stacks mask the tokens a model may choose next and move on with the token it chose.
Stack frames are (rule, element) pairs here where the original keeps pointers. The reference is
`Language.Derives`, an inductive derivation relation that knows nothing of stacks.

**Batch allocator** (`llama-batch.cpp`). A batch is checked against memory, its missing positions
are generated, and it is cut into micro-batches in one of three ways. The class
`BatchSplit.BatchAllocr` has the fields of the original; the ghost field `emitted` lists every index
that has gone out. The loops of the splitters work on copies of `used` and `nUsed`, which
`BatchAllocr.Emit` stores.

**Decoding** (`llama-context.cpp`). Micro-batches are run, their output rows appended, the swaps of a
selection sort recorded and applied when a row is first asked for, a failed micro-batch is taken out
of memory again, and saved state is copied between chunk lists. The network is an arbitrary function
from batch index to row. Memory is a set of positions for each sequence.

## Reading order

| files | what they hold |
|---|---|
| Collections, Relations | optional values, flattening; paths, cycles and sizes of finite sets |
| GrammarElements, Language | elements, classes, the language of rules and of stacks |
| StackExpansion, RuleUse, Worklist | expanding references keeps the language; rules in use; the worklist |
| LeftReferences, Termination, Progress, LeftRecursion | when the worklist stops, and with a stack; the left-recursion check |
| Utf8, Utf8Cuts, PartialChar | decoding in pieces; which cuts matter; characters cut off at the end of a token |
| CharStep, Automaton | one code point; the grammar object |
| ReachedStacks | the stacks that runs come to, and when the worklist stops on all of them |
| CandidateFilter, Tokens, NulPieces, TokenElements | masking, taking tokens, and when the two agree, without and with token elements |
| TokenRuns, LazyTrigger | runs over several tokens; waiting for a trigger |
| Repetition, GrammarSyntax | repetition operators; what a text says |
| Notation, NotationTerms, GrammarShow, WriteTrees | the notation as it is written; reading back what is written; every syntax tree can be written |
| TermsWritten, TextsWritten | whatever is read has been written in the notation |
| RuleTable, GrammarMeaning, GrammarLanguage, NotationLanguage | what a syntax tree becomes; the table means what the text says, has its languages, and accepts what is written |
| GrammarParser, ParseSteps, GrammarText, DefinedNames | the parser's tables; reading and building together; the text; which names have a rule |
| BatchTokens, BatchInit, FilledBatch, AcceptedBatch, BatchCuts | the allocator's checks and positions; the completed batch and the flaws for which it is refused, token by token |
| BatchPicks, BatchEqual, BatchSize, BatchSplit, BatchRun | the equal split, its size, the allocator, whole runs |
| OutputOrder, Outputs, Rollback | output rows and their order; failed micro-batches |
| Decoding, DroppedSwaps, FailedCalls, Rechunk | whole calls; three calls that give a wrong row; two failed calls; chunk copies |

## What was found

- The left-recursion check uses only literally empty alternates, so it passes grammars on which the
  worklist never stops (`LeftRecursion.HiddenLeftRecursionPasses`), and others on which it stops
  without a stack (`LeftRecursion.StallingPasses`). The worklist stops on every stack if and only if no
  rule returns to itself, leftmost, with something left behind it (`Termination.TerminatesIffGrowthFree`;
  for the rules of one start rule, `Termination.TerminatesFromIff`; for exactly the stacks that its runs
  come to, `ReachedStacks.RunsTerminateIff`), and every stack settles if and only if every rule can start
  (`Progress.SettlesIff`, `Progress.SettlesFromIff`). Where nullability is literal the check is enough
  (`LeftRecursion.PassedCheckSuffices`).
- For an inverse class the partial-character test refuses as soon as one completion is excluded. It
  meets "some completion is accepted" exactly unless the completions are partly inside and partly
  outside the class (`PartialChar.InverseClassPromise`).
- Masking and taking a token agree on all grammars without token elements if and only if the piece
  gives no NUL code point, or ends in a cut-off sequence that no character completes
  (`NulPieces.AgreeIff`). With a NUL the filter looks only at what stands before it. Where rules name
  tokens too, the filter matches them in the middle of a piece, and the two agree on all grammars only for
  pieces of one whole character, or of nothing but a sequence that no character completes
  (`TokenElements.AgreeIff`).
- Cutting a byte string without NUL anywhere does not matter if and only if it is made of complete
  sequences, up to the last one, or of continuation bytes only (`Utf8Cuts.CutsAgreeIff`). Sequences may
  be overlong or encode surrogates.
- `split_equal` stops collecting only above `n_ubatch` sequence sets, so one micro-batch can hold
  `n_ubatch + 1` tokens (`BatchRun.OneTooMany`). It does if and only if more sets than that can be picked
  and none has to wait for its tail (`BatchSize.SizeIff`); for a plain split of unshared tokens, if and
  only if more than `n_ubatch` sequences have unused tokens (`BatchSize.OverfullMeans`).
- The check for incompatible sequence sets (llama-batch.cpp:371-376) can never fail: the mask of a
  sequence always holds the sequence. `BatchInit.CheckToken` proves the branch dead.
- Removing a failed micro-batch restores memory exactly under `Rollback.Undoable`. All micro-batches that
  can be cut from an accepted batch meet it if and only if no token belongs to two sequences and the
  positions of each sequence increase (`Rollback.RunsUndoableIff`). A call with a token of two sequences
  (`FailedCalls.CoupledStays`) and one with a position that comes twice (`FailedCalls.RepeatedLost`) leave
  memory wrong.
- After a failed call no token has a row, but the last rows, counted from the end, are still given out: as
  many as the failed micro-batch has outputs (`Outputs.RowsLeftBehind`).
- A decode call that is turned down for lack of room has by then dropped the pending swaps of the call
  before it; if that call's rows had not been read yet, they stay in the wrong order
  (`DroppedSwaps.WrongRow`). It is harmless if and only if no swaps were pending
  (`Outputs.DropIsHarmlessIff`).
- Behind a bar, and behind `::=`, the end of the line is skipped. So an empty alternate at the end of a
  rule takes in the name of the next rule: a grammar is read back as written if and only if no rule but the
  last ends with an empty alternate, and is refused otherwise (`GrammarShow.GrammarRoundTrip`). An empty
  alternate can be written as an empty literal. Apart from that, the texts that are read are exactly those of
  the notation in `Notation` (`TextsWritten.ReadIffWritten`); it takes bytes that are no UTF-8 for characters.
- A name that the text mentions only where it is dropped, as in a repetition of at most 0, has an id but no
  rule (`DefinedNames.MentionedWithoutRule`). The start symbol is only looked up among the ids, so with such
  a name the original reads past its table. In an accepted grammar a name has a rule if and only if the text
  defines it (`DefinedNames.StartIsRuleIff`).

## Model

| member | source | states |
|---|---|---|
| GrammarElements.MatchChar | rebirth/src/llama.cpp/src/llama-grammar.cpp:762-787 | the verdict is membership in the class; the position reached is the end of the class and does not depend on the character |
| StackExpansion.AdvanceKeepsLanguage | rebirth/src/llama.cpp/src/llama-grammar.cpp:857-938 | a stack derives a word if and only if one of the settled stacks reachable by expanding references does |
| Worklist.AdvanceStack | rebirth/src/llama.cpp/src/llama-grammar.cpp:857-938 | adds exactly the settled stacks that can be reached, keeps the order of those that were there, and makes no duplicates |
| Termination.TerminatesIffGrowthFree | rebirth/src/llama.cpp/src/llama-grammar.cpp:861-938 | every stack has finitely many expansions if and only if no rule returns to itself, leftmost, with something left to match behind it |
| Termination.TerminatesFromIff | rebirth/src/llama.cpp/src/llama-grammar.cpp:861-938 | the same for the stacks of one start rule and the rules that it can reach |
| ReachedStacks.RunsTerminateIff | rebirth/src/llama.cpp/src/llama-grammar.cpp:861-1036 | the worklist stops on every stack that a run from the start rule comes to if and only if no rule that it comes to, behind elements that something matches, grows leftmost on itself |
| ReachedStacks.FollowersReached | rebirth/src/llama.cpp/src/llama-grammar.cpp:1001-1036 | the stacks that a code point leads to are among those that a run comes to |
| Progress.StackProgress | rebirth/src/llama.cpp/src/llama-grammar.cpp:861-938 | without leftmost cycles every stack settles into at least one stack, which is what the filter's assertion needs |
| Progress.SettlesIff | rebirth/src/llama.cpp/src/llama-grammar.cpp:861-938 | every stack settles into some stack if and only if every rule has a way to start, with a terminal, an empty alternate or a reference to rules that can start |
| Progress.SettlesFromIff | rebirth/src/llama.cpp/src/llama-grammar.cpp:861-938 | the same for the stacks of one start rule: each settles if and only if every rule that the start rule uses can start |
| LeftRecursion.DetectLeftRecursion | rebirth/src/llama.cpp/src/llama-grammar.cpp:940-991 | fails if and only if the graph of references behind rules that derive the empty word by one application loops from this rule or returns to a rule in progress; a success restores the marks in progress and sets the rule's emptiness bit correctly |
| LeftRecursion.HasLeftRecursion | rebirth/src/llama.cpp/src/llama-grammar.cpp:1204-1218 | the check over all rules succeeds if and only if the graph of references behind rules that derive the empty word by one application is acyclic |
| LeftRecursion.EmptyAtOnceIff | rebirth/src/llama.cpp/src/llama-grammar.cpp:956-967 | a rule derives the empty word by one application if and only if one of its alternates, the first or a later one, has no elements |
| LeftRecursion.PassedCheckSuffices | rebirth/src/llama.cpp/src/llama-grammar.cpp:940-991 | without leftmost cycles the check passes and the worklist stops and progresses; where only literally empty rules are nullable, a passed check means that there are none |
| LeftRecursion.HiddenLeftRecursionPasses | rebirth/src/llama.cpp/src/llama-grammar.cpp:956-967 | a grammar that passes the check and has a stack, a single frame of its first rule, with infinitely many expansions |
| LeftRecursion.StallingPasses | rebirth/src/llama.cpp/src/llama-grammar.cpp:956-967 | a grammar that passes the check and has a stack that settles into no stack |
| CharStep.CharStepExact | rebirth/src/llama.cpp/src/llama-grammar.cpp:1001-1025 | a settled stack derives `c·w` if and only if its top accepts `c` and the stack behind it derives `w` |
| CharStep.FollowersDerive | rebirth/src/llama.cpp/src/llama-grammar.cpp:1027-1036 | the stacks behind `c` derive `w` if and only if the stacks before derive `c·w` |
| Automaton.ParsedRulesLoad | rebirth/src/llama.cpp/src/llama-grammar.cpp:1281-1297 | a well-formed table loads unchanged, and all its references are defined |
| Automaton.InitialStacks | rebirth/src/llama.cpp/src/llama-grammar.cpp:1220-1243 | the first stacks are exactly those that come from an alternate of the root rule |
| Automaton.Grammar.Init | rebirth/src/llama.cpp/src/llama-grammar.cpp:1181-1259 | turns a grammar down exactly for an undefined reference or a failed left-recursion check; otherwise, where no rule that the root rule reaches grows leftmost, the stacks derive exactly the language of the root rule |
| Automaton.Grammar.Accept | rebirth/src/llama.cpp/src/llama-grammar.cpp:1027-1036 | the new stacks are exactly the followers; for every `w` they derive `w` if and only if the code points so far followed by `w` are in the language |
| Automaton.Grammar.AcceptStr | rebirth/src/llama.cpp/src/llama-grammar.cpp:1508-1521 | takes the decoded code points of a piece, carries over what is incomplete, fails exactly if no stack is left |
| Automaton.Grammar.EmptyStackMeansWord | rebirth/src/llama.cpp/src/llama-grammar.cpp:1449-1506 | while the grammar tracks the empty word too, the empty stack is there if and only if the code points so far are a word of the root rule; it does from the start and after every piece that completes a code point, not right after one that completes none |
| Automaton.Grammar.NoStacksNoContinuation | rebirth/src/llama.cpp/src/llama-grammar.cpp:1508-1521 | without stacks no continuation is in the language |
| Utf8.DecodeUtf8 | rebirth/src/llama.cpp/src/llama-grammar.cpp:35-93 | the loops compute the reference decoding, which ends in 0 |
| Utf8.SplitIndependent | rebirth/src/llama.cpp/src/llama-grammar.cpp:35-93 | the encoding of any text, cut anywhere into pieces, decodes piece by piece to that text with nothing left over |
| Utf8.CutMattersForInvalidBytes | rebirth/src/llama.cpp/src/llama-grammar.cpp:46-56 | a byte string that decodes differently when it is cut |
| Utf8Cuts.CutsAgreeIff | rebirth/src/llama.cpp/src/llama-grammar.cpp:46-73 | for a byte string without NUL every cut into pieces decodes like the whole if and only if it consists of continuation bytes only, or of sequences with a legal first byte and continuation bytes behind it, of which the last may be cut off |
| PartialChar.MatchPartialChar | rebirth/src/llama.cpp/src/llama-grammar.cpp:792-838 | the verdict compares the interval of completions with the class |
| PartialChar.IntervalIsCompletions | rebirth/src/llama.cpp/src/llama-grammar.cpp:798-816 | the interval holds exactly the characters that complete the sequence and are not overlong |
| PartialChar.PositiveClassVerdict | rebirth/src/llama.cpp/src/llama-grammar.cpp:792-838 | a refusal means that no completion is accepted; with ordered ranges an acceptance means that one is |
| PartialChar.InverseClassVerdict | rebirth/src/llama.cpp/src/llama-grammar.cpp:792-838 | acceptance by an inverse class means that every completion is accepted, and conversely with ordered ranges |
| PartialChar.InverseClassPromise | rebirth/src/llama.cpp/src/llama-grammar.cpp:792-838 | the inverse class accepts exactly when some completion is accepted, if and only if the completions are not partly inside and partly outside the class |
| PartialChar.InverseClassRefusesTooMuch | rebirth/src/llama.cpp/src/llama-grammar.cpp:792-838 | an inverse class that refuses a sequence which a character it accepts would complete |
| CandidateFilter.RejectStep | rebirth/src/llama.cpp/src/llama-grammar.cpp:1040-1110 | sorts the candidates of one stack into those that it rejects here and those that go on, and gives the stacks with which they go on |
| CandidateFilter.RejectedPositions | rebirth/src/llama.cpp/src/llama-grammar.cpp:1112-1170 | where rules do not grow and can start, the loop over explicit levels ends and returns, each exactly once, the candidates that every stack rejects under the recursive definition |
| Tokens.Apply | rebirth/src/llama.cpp/src/llama-grammar.cpp:1406-1447 | masks exactly the tokens that no stack can take, the end of generation unless the empty stack is there, and empty pieces |
| Tokens.EndIsMasked | rebirth/src/llama.cpp/src/llama-grammar.cpp:1406-1427 | while the grammar tracks the empty word, the end of generation is masked if and only if the code points so far are no word of the root rule |
| Tokens.EmptyIsMasked | rebirth/src/llama.cpp/src/llama-grammar.cpp:1428-1436 | a token without text, or whose text starts with NUL, is masked |
| Tokens.AcceptToken | rebirth/src/llama.cpp/src/llama-grammar.cpp:1523-1576 | the new stacks are exactly those behind the token; without token elements the language moves on by its code points |
| Tokens.RejectedMeans | rebirth/src/llama.cpp/src/llama-grammar.cpp:1040-1110 | the recursive filter rejects if and only if no way through the code points leaves a stack that the cut-off rest fits |
| Tokens.MaskedIffNotAcceptable | rebirth/src/llama.cpp/src/llama-grammar.cpp:1406-1447 | a token passes if and only if taking it leaves a stack that its cut-off end fits; so what passes can be taken, and for whole characters the converse holds |
| NulPieces.FilterStopsAtNul | rebirth/src/llama.cpp/src/llama-grammar.cpp:1040-1110 | whatever the piece, the filter decides by the code points in front of the first NUL and the cut-off end: it masks if and only if no way through them leaves a stack that the end fits |
| NulPieces.AgreeIff | rebirth/src/llama.cpp/src/llama-grammar.cpp:1406-1447 | filter and taking agree on all grammars without token elements and all their settled stacks if and only if the piece gives no NUL code point, or ends in a cut-off sequence that no character completes |
| NulPieces.OverlongNulPassesFilter | rebirth/src/llama.cpp/src/llama-grammar.cpp:1406-1447 | a piece with a NUL code point that passes the filter and leaves no stack when it is taken |
| TokenElements.FilterDecides | rebirth/src/llama.cpp/src/llama-grammar.cpp:1040-1110 | on any grammar the filter lets a token pass if and only if some of its code points, up to the first NUL, lead to a stack that waits for the token, or all of them to one that its end fits |
| TokenElements.TokenGoesOn | rebirth/src/llama.cpp/src/llama-grammar.cpp:842-854 | from a stack that waits for a token, taking a token leaves a stack if and only if it is that token, and from one that waits for any token but one, if and only if it is another |
| TokenElements.TokenIsMasked | rebirth/src/llama.cpp/src/llama-grammar.cpp:1067-1080 | of the tokens whose text gives a code point in front of any NUL, the filter masks on such a stack exactly the others, or exactly that one |
| TokenElements.SingleWaits | rebirth/src/llama.cpp/src/llama-grammar.cpp:842-854 | the start stack of `root ::= <[id]>`, and of `root ::= !<[id]>`, is such a stack |
| TokenElements.AgreeIff | rebirth/src/llama.cpp/src/llama-grammar.cpp:1001-1110 | filter and taking agree on all grammars, token elements included, on whose stacks a run can go on, if and only if the piece is one whole character other than NUL, or nothing but a cut-off sequence that no character completes |
| LazyTrigger.TilesExtended | rebirth/src/llama.cpp/src/llama-grammar.cpp:1461-1466 | the places of the buffered tokens follow each other without gap or overlap and fill the buffer |
| LazyTrigger.PartsAreTheRest | rebirth/src/llama.cpp/src/llama-grammar.cpp:1470-1488 | the parts that a replay from a place is made of are exactly the buffer from there on, token by token and in order |
| TokenRuns.TakeOne | rebirth/src/llama.cpp/src/llama-grammar.cpp:1523-1576 | handing over one token more continues the run: the stacks are those behind all tokens so far, the decoder state and the code points those of their texts, and the language is still tracked |
| TokenRuns.NoneComesBack | rebirth/src/llama.cpp/src/llama-grammar.cpp:1523-1576 | tokens behind which no stack is left cannot be made good by further tokens |
| LazyTrigger.LazyGrammar.Replay | rebirth/src/llama.cpp/src/llama-grammar.cpp:1470-1488 | the grammar is where the run of the tokens handed on takes it, from its state before; these are all parts of the buffer from the match on, or a front of them that leaves no stack, and exactly then the call throws |
| LazyTrigger.LazyGrammar.HoldBack | rebirth/src/llama.cpp/src/llama-grammar.cpp:1460-1498 | the token is held back, with the grammar untouched, exactly if no pattern matches; otherwise everything from the match of the first matching pattern on is replayed, and the grammar is where that run takes it |
| LazyTrigger.LazyGrammar.Accept | rebirth/src/llama.cpp/src/llama-grammar.cpp:1449-1506 | in every state the grammar is where the run of the tokens handed on takes it, and the call throws exactly if this leaves no stack; trigger tokens end the waiting with only themselves handed on; the end of generation is refused exactly without the empty stack |
| Repetition.RewrittenMeaning | rebirth/src/llama.cpp/src/llama-grammar.cpp:464-529 | the rewritten tail derives exactly the words of `min` up to `max` repetitions of the symbol, or of any number from `min` on |
| Repetition.RuleLanguageKept | rebirth/src/llama.cpp/src/llama-grammar.cpp:509-527 | rules that are added leave the languages of the existing rules alone |
| Repetition.StackedPowers | rebirth/src/llama.cpp/src/llama-grammar.cpp:464-529 | two operators in a row repeat the symbol exactly as often as the second number of groups of the first number can hold |
| GrammarSyntax.DecimalRoundTrip | rebirth/src/llama.cpp/src/llama-grammar.cpp:152-161 | the decimal text of a number is made of digits and reads back |
| GrammarShow.GrammarRoundTrip | rebirth/src/llama.cpp/src/llama-grammar.cpp:126-723 | a grammar that is written in the notation, with any spelling of its characters, numbers and operators and any blanks and comments, nested groups, stacked repetitions, tokens and empty alternates, is read as what is meant if no rule but the last ends with an empty alternate, and is refused otherwise |
| NotationTerms.LetterShown | rebirth/src/llama.cpp/src/llama-grammar.cpp:103-185 | a character is read as its code point, however it is written: as it is, by a short escape for tab, line feed, carriage return, quote, hyphen, brackets and backslash, or by two, four or eight hexadecimal digits |
| NotationTerms.OperatorShown | rebirth/src/llama.cpp/src/llama-grammar.cpp:609-659 | `*` is read as any number of times, `+` as once or more, `?` as at most once, `{m}` as exactly `m` times, `{m,}` as `m` or more and `{m,n}` as `m` to `n`, or without a maximum if `n` is above 2000, with blanks and leading zeros allowed |
| NotationTerms.TokenTextShown | rebirth/src/llama.cpp/src/llama-grammar.cpp:187-229 | the tokenizer is given the text of a token with its brackets, and its one token is taken |
| WriteTrees.EveryGrammarIsWritten | rebirth/src/llama.cpp/src/llama-grammar.cpp:417-723 | every syntax tree whose numbers fit the notation is what some text means |
| TextsWritten.ReadIffWritten | rebirth/src/llama.cpp/src/llama-grammar.cpp:99-723 | a text is read if and only if it is written in the notation, everything else is refused, and however it can be taken to be written, what is read is what is meant |
| TermsWritten.SpaceWritten | rebirth/src/llama.cpp/src/llama-grammar.cpp:126-139 | what is skipped are blanks, ends of lines where they do not count, and comments up to the end of their line or of the text |
| GrammarShow.LiteralAccepts | rebirth/src/llama.cpp/src/llama-grammar.cpp:532-544 | a literal derives its own characters and nothing else |
| GrammarShow.ClassAcceptsListed | rebirth/src/llama.cpp/src/llama-grammar.cpp:545-574 | a class derives single characters: exactly those listed or in a range, or for an inverse class exactly the others; an empty class derives the empty word |
| GrammarShow.WrittenClassAccepts | rebirth/src/llama.cpp/src/llama-grammar.cpp:545-574 | a class as it is written accepts single characters: exactly those that it names or that lie between the ends of one of its ranges, or for an inverse class exactly the others |
| RuleTable.GeneratedNameNumber | rebirth/src/llama.cpp/src/llama-grammar.cpp:423-427 | generated names are different for different ids |
| GrammarParser.Parser.GetSymbolId | rebirth/src/llama.cpp/src/llama-grammar.cpp:417-421 | the ids stay a bijection onto 0, 1, 2, ...; a name keeps its id |
| GrammarParser.Parser.GenerateSymbolId | rebirth/src/llama.cpp/src/llama-grammar.cpp:423-427 | a generated name is new, whatever names the text holds |
| GrammarParser.Parser.HandleRepetitions | rebirth/src/llama.cpp/src/llama-grammar.cpp:464-529 | fails exactly without a preceding symbol or above the threshold; otherwise in the new table the new tail derives exactly the words of `min` up to `max` of the words that the old tail derived in the old table, and no rule that was there has changed |
| RuleTable.RepeatCompilesIff | rebirth/src/llama.cpp/src/llama-grammar.cpp:464-492 | a repetition is refused exactly if its item is, if there is nothing to repeat, if the minimum is above the maximum, or if the item counts as more than 2000 by itself, by the minimum or by the maximum |
| RuleTable.ItemCounts | rebirth/src/llama.cpp/src/llama-grammar.cpp:588-607 | a group counts as the symbols that are new with it, every other item as one |
| GrammarParser.TwoOperators | rebirth/src/llama.cpp/src/llama-grammar.cpp:464-529 | after two operators in a row the tail derives what groups of groups of the first symbol derive |
| GrammarMeaning.TableMeansText | rebirth/src/llama.cpp/src/llama-grammar.cpp:436-723 | in the table of a whole grammar the rule of every name derives exactly what its last definition says: alternates, sequences, groups, references to the rules of the same table, and repetitions as powers, whatever rules were generated for it and for later definitions |
| NotationLanguage.WrittenRuleAccepts | rebirth/src/llama.cpp/src/llama-grammar.cpp:436-723 | the rule that the parser leaves for a name accepts exactly what the last statement for the name says as it is written: spelled literals, classes, the dot, items one behind the other, choices, groups, repetitions, and references as the rules of their names |
| NotationLanguage.OperatorAccepts | rebirth/src/llama.cpp/src/llama-grammar.cpp:464-529 | the rule of `x ::= y*` accepts exactly any number of words of `y`, that of `x ::= y+` one or more, of `x ::= y?` at most one, and of `x ::= y{m,n}` `m` to `n` |
| GrammarLanguage.TableIsLanguage | rebirth/src/llama.cpp/src/llama-grammar.cpp:436-723 | the rule of every name derives exactly the words that the name derives by the syntax trees, where a derivation unfolds names finitely often |
| GrammarText.ParseInt | rebirth/src/llama.cpp/src/llama-grammar.cpp:152-161 | takes all digits that follow and gives their value; fails exactly without a digit or above 64 bits |
| GrammarText.ParseHex | rebirth/src/llama.cpp/src/llama-grammar.cpp:103-124 | reads the number of digits asked for, in 32 bits; fails exactly if one of that many bytes is missing or no digit |
| GrammarText.ParseChar | rebirth/src/llama.cpp/src/llama-grammar.cpp:163-185 | the escape or character that the text says, and the place behind it; fails exactly at the end, at an unknown escape and at missing digits |
| GrammarText.ParseLiteral | rebirth/src/llama.cpp/src/llama-grammar.cpp:532-544 | one element for each character of the text up to the quote; fails exactly if a character is refused or the quote is missing |
| GrammarText.ParseClass | rebirth/src/llama.cpp/src/llama-grammar.cpp:552-573 | one element for each character and each bound of the text up to the bracket, a range exactly for a hyphen that is not the last character; fails exactly if a character is refused or the bracket is missing |
| GrammarText.ParseToken | rebirth/src/llama.cpp/src/llama-grammar.cpp:187-229 | the token id or the one token of the text; fails exactly otherwise |
| GrammarText.ParseBounds | rebirth/src/llama.cpp/src/llama-grammar.cpp:622-659 | the bounds that the text says; fails exactly without a minimum, without a closing brace or with too large a number |
| GrammarText.ParseSequence | rebirth/src/llama.cpp/src/llama-grammar.cpp:453-665 | the elements and the table are those of the sequence that the text says; fails exactly if the text cannot be read or a repetition in it is rejected |
| GrammarText.ParseAlternates | rebirth/src/llama.cpp/src/llama-grammar.cpp:436-451 | the same for all alternates, which become the definition of the id |
| GrammarText.ParseRule | rebirth/src/llama.cpp/src/llama-grammar.cpp:667-689 | the same for a rule up to the end of its line |
| ParseSteps.StaysRejected | rebirth/src/llama.cpp/src/llama-grammar.cpp:481-492 | nothing that follows in the text makes up for a rejected repetition |
| GrammarText.AllDefined | rebirth/src/llama.cpp/src/llama-grammar.cpp:697-715 | succeeds exactly if every rule and every reference is defined; an undefined reference always has a name to report |
| GrammarText.Parse | rebirth/src/llama.cpp/src/llama-grammar.cpp:691-723 | succeeds exactly if the text can be read as a grammar, no repetition is rejected and all rules are defined; the table is then well formed and that of the grammar, its rules mean what the text says, and for a new parser they have the languages of the text; a failure leaves no rules |
| DefinedNames.StartIsRuleIff | rebirth/src/llama.cpp/src/llama-grammar.cpp:1276-1292 | in an accepted grammar the id of a name is that of a rule if and only if the text defines the name |
| DefinedNames.MentionedWithoutRule | rebirth/src/llama.cpp/src/llama-grammar.cpp:1276-1292 | a grammar that is accepted and gives an id to a name without a rule |
| BatchInit.GeneratePositions | rebirth/src/llama.cpp/src/llama-batch.cpp:90-118 | each token continues its first sequence, and all of its sequences continue behind it |
| BatchInit.SpanTestExact | rebirth/src/llama.cpp/src/llama-batch.cpp:316-319 | comparing the span with the count of positions finds exactly the gaps |
| BatchInit.CheckContinuity | rebirth/src/llama.cpp/src/llama-batch.cpp:289-321 | passes exactly if the positions of every sequence are an interval that starts right behind memory |
| BatchInit.CheckOrder | rebirth/src/llama.cpp/src/llama-batch.cpp:354-386 | passes exactly if no sequence goes back along the batch and no position is below -1 |
| BatchInit.CollectSeqSets | rebirth/src/llama.cpp/src/llama-batch.cpp:184-207 | the list of each sequence set holds exactly its tokens, in order |
| BatchInit.OmittedPositionsPass | rebirth/src/llama.cpp/src/llama-batch.cpp:90-118 | without given positions and shared tokens every batch with valid ids is acceptable |
| BatchSplit.BatchAllocr.Init | rebirth/src/llama.cpp/src/llama-batch.cpp:25-391 | accepts exactly if the ids are valid and no token of the completed batch is at fault: no gap in front of it, not behind what memory holds, not before the one in front of it in its sequence, not in two sequences that differ in memory, and no position below -1; given fields are taken over, and what is omitted is sequence 0, the position behind the token before it or behind memory, and the last token as output |
| FilledBatch.FilledCompletes | rebirth/src/llama.cpp/src/llama-batch.cpp:77-147 | a token without a position goes on behind the last earlier token of its first sequence, or behind what memory holds of it, or at 0; without marks the last token alone is an output |
| FilledBatch.UnsharedCounts | rebirth/src/llama.cpp/src/llama-batch.cpp:90-118 | without shared tokens the position of a token is 0, or one behind memory where it holds the sequence, plus the number of earlier tokens of the sequence |
| AcceptedBatch.RefusedIff | rebirth/src/llama.cpp/src/llama-batch.cpp:289-386 | a completed batch is refused if and only if one of its tokens is at fault, each fault in terms of that token and one other |
| AcceptedBatch.IdsBadIff | rebirth/src/llama.cpp/src/llama-batch.cpp:49-70 | the ids are invalid if and only if some token, or some sequence of a token, does not exist |
| BatchSplit.BatchAllocr.UbatchAdd | rebirth/src/llama.cpp/src/llama-batch.cpp:749-843 | copies the tokens, lists the sequence ids with their places, and appends exactly the outputs |
| BatchSplit.BatchAllocr.SplitSimple | rebirth/src/llama.cpp/src/llama-batch.cpp:476-508 | in any state the run of tokens from the first unused one on, at most `n_ubatch` and at least one while there are any; the allocator stays in order if and only if no used token is among them, as after simple splits only |
| BatchSplit.RunIsFull | rebirth/src/llama.cpp/src/llama-batch.cpp:476-508 | the run is as long as a micro-batch, one at least, or goes up to the end of the batch |
| BatchSplit.BatchAllocr.SplitSeq | rebirth/src/llama.cpp/src/llama-batch.cpp:681-721 | from the first unused token on, each time the next unused one all of whose sequences are sequences of the token before it, until the micro-batch is full or there is none |
| BatchSplit.BatchAllocr.SplitEqual | rebirth/src/llama.cpp/src/llama-batch.cpp:510-679 | refuses exactly coupled sequential splits; otherwise the sets, the places where they stood and the places where they end are exactly those of the equal split: disjoint sets taken in turn from the first unused token on, with no token passed over that could have been taken and, without tails, none left behind the last one as long as there are at most `n_ubatch` sets, in a sequential split with ids that follow each other; the same length of each as long as one has tokens and there is room, and the longest front of them that keeps whole tails |
| BatchEqual.CollectSets | rebirth/src/llama.cpp/src/llama-batch.cpp:516-552 | the sets are taken in turn: from the first unused token on each next one that meets none of the sets so far and, in a sequential split, has the id behind the last one, none passed over, until there are more than `n_ubatch` or no token is left that goes on |
| BatchPicks.PickedIff | rebirth/src/llama.cpp/src/llama-batch.cpp:516-552 | tokens are the picked ones if and only if they are taken in turn and none that goes on is left, unless there are more than `n_ubatch` |
| BatchEqual.Expand | rebirth/src/llama.cpp/src/llama-batch.cpp:561-603 | all sets move on by the same length, until one is through or the next column does not fit |
| BatchPicks.EqualLenUnique | rebirth/src/llama.cpp/src/llama-batch.cpp:561-603 | the length of an equal split is determined: as many tokens as all sets have left and as there is room for, one at least |
| BatchEqual.KeepTails | rebirth/src/llama.cpp/src/llama-batch.cpp:605-667 | the longest front of the sets stays in which every set finishes or keeps a whole tail for later; only if the first set itself does neither, it alone stays and is moved on until it does; the others are given back as they were |
| BatchEqual.StaysIff | rebirth/src/llama.cpp/src/llama-batch.cpp:605-667 | the sets that stay, and where they end, are those of the equal split if and only if each of them finishes or has a whole tail left and the next one does not; or the first one alone, moved on to its end if there is room and otherwise cut back to a whole tail |
| BatchEqual.EqualRows | rebirth/src/llama.cpp/src/llama-batch.cpp:669-679 | row `s * len + k` is the token `k` places on in the list of set `s` |
| BatchEqual.EqualKeepsTails | rebirth/src/llama.cpp/src/llama-batch.cpp:605-667 | of every set everything, nothing or a whole tail is still to come |
| BatchRun.SequentialRows | rebirth/src/llama.cpp/src/llama-batch.cpp:531-545 | in a sequential split each row group belongs to one sequence, and the ids follow each other |
| BatchRun.TailsLandedMore | rebirth/src/llama.cpp/src/llama-batch.cpp:605-667 | the tail of a set that is through lies in one micro-batch |
| BatchRun.Complete | rebirth/src/llama.cpp/src/llama-batch.cpp:155-158 | when all is used, every index went out once, the outputs are exactly the marked ones, as many as were counted |
| BatchRun.InitBatch | rebirth/src/llama.cpp/src/llama-kv-cache.cpp:702-737 | the run ends and cuts the batch exactly, in order for each sequence set, with whole tails, unless the mode refuses it; each micro-batch is the one that the splitter takes in the state before it, too large exactly if that state makes it so; without shared tokens all micro-batches of any equal split have at most `n_ubatch` tokens if the batch has at most `n_ubatch` sequences, and those of a plain one only then |
| BatchRun.RunSizesIff | rebirth/src/llama.cpp/src/llama-batch.cpp:516-667 | over a whole run of any equal split, sequential or with tails, all micro-batches fit if and only if in no state on the way too many sets are picked and all stay |
| BatchSize.SizeIff | rebirth/src/llama.cpp/src/llama-batch.cpp:516-667 | a micro-batch of an equal split has more than `n_ubatch` tokens if and only if more than `n_ubatch` sets are picked and after one token each none of them has to wait for its tail |
| BatchSize.OverfullMeans | rebirth/src/llama.cpp/src/llama-batch.cpp:516-552 | without shared tokens, sequential ids and tails this is so if and only if more than `n_ubatch` different sequences have unused tokens |
| BatchRun.OneTooMany | rebirth/src/llama.cpp/src/llama-batch.cpp:540-551 | from initialisation on: a batch of two tokens of two sequences is accepted, and with `n_ubatch` of 1 its first micro-batch holds both |
| OutputOrder.SelectionSort | rebirth/src/llama.cpp/src/llama-context.cpp:2023-2038 | the recorded swaps sort the ids, and are fewer than the misplaced ids, none if there are none |
| OutputOrder.SwapsFollow | rebirth/src/llama.cpp/src/llama-context.cpp:2252-2318 | applying the swaps to the rows puts each row where its id went |
| Outputs.OutputBuffer.OutputReorder | rebirth/src/llama.cpp/src/llama-context.cpp:2252-2318 | applies the pending swaps in order, once |
| Outputs.OutputBuffer.OutputResolveRow | rebirth/src/llama.cpp/src/llama-context.cpp:859-887 | the row number of a token, or of an output counted from the end; nothing for all other indices |
| Outputs.OutputBuffer.GetLogitsIth | rebirth/src/llama.cpp/src/llama-context.cpp:889-906 | in any state exactly the row that the index resolves to after the pending swaps; where the buffer serves a batch, the row computed for the token, or for the k-th last output in batch order; asking again gives the same |
| Outputs.DropIsHarmlessIff | rebirth/src/llama.cpp/src/llama-context.cpp:1757 | dropping pending swaps leaves every row served, whatever the network computes, if and only if none were pending |
| Outputs.RowsLeftBehind | rebirth/src/llama.cpp/src/llama-context.cpp:859-906 | after a failed call an index is given a row if and only if it is negative and at most as many from the end as the failed micro-batch has outputs; in front are the rows of completed outputs |
| DroppedSwaps.WrongRow | rebirth/src/llama.cpp/src/llama-context.cpp:1663-2056 | three calls: a decode of three tokens whose rows are computed out of order, a decode without room, and the row of token 1, which is the one computed for token 2 |
| Rollback.RollBack | rebirth/src/llama.cpp/src/llama-context.cpp:1848-1868 | removes what lies at or behind the first position of each first sequence |
| Rollback.RollbackExactIff | rebirth/src/llama.cpp/src/llama-context.cpp:1848-1868 | memory is restored, whatever part had been stored, if and only if the micro-batch is undoable in it |
| Rollback.RunIsUndoable | rebirth/src/llama.cpp/src/llama-context.cpp:1825-1877 | for an accepted uncoupled batch with increasing positions every micro-batch of every run is undoable |
| Rollback.RunsUndoableIff | rebirth/src/llama.cpp/src/llama-context.cpp:1825-1877 | of an accepted batch every micro-batch of every run is undoable if and only if no token belongs to two sequences and the positions of each sequence increase |
| FailedCalls.CoupledStays | rebirth/src/llama.cpp/src/llama-context.cpp:1855-1868 | a decode call of a new context with a shared token that fails and leaves a position in the second sequence |
| FailedCalls.RepeatedLost | rebirth/src/llama.cpp/src/llama-context.cpp:1855-1868 | a decode call of a new context that fails in its second micro-batch and loses the position of the completed one |
| Decoding.Decoder.MapOutputs | rebirth/src/llama.cpp/src/llama-context.cpp:2005-2050 | every output has its place and every row can be served, with fewer pending swaps than misplaced rows |
| Decoding.Decoder.RunUbatch | rebirth/src/llama.cpp/src/llama-context.cpp:1825-1904 | the rows of a micro-batch follow those of the ones before it |
| Decoding.Decoder.Decode | rebirth/src/llama.cpp/src/llama-context.cpp:1663-2056 | invalid exactly if the number of sequences, the ids or the completed batch are not acceptable; no slot exactly if the mode refuses the batch or there is no room; failed exactly if one of the micro-batches fails; success otherwise. The first two leave memory and outputs alone, except that without a slot pending swaps are gone. Success: all is stored and every output is served in batch order. Failure: memory is exactly what the removal makes of the completed micro-batches and the stored part of the failed one, which is as if only the former had been run if the batch can be undone; the outputs are those left behind |
| Decoding.PlainCanUndo | rebirth/src/llama.cpp/src/llama-context.cpp:1848-1868 | input without shared tokens whose positions are omitted, or increase in each sequence, gives a batch that can be undone |
| Decoding.FailureExact | rebirth/src/llama.cpp/src/llama-context.cpp:1848-1868 | the failed micro-batch leaves nothing behind and takes nothing away |
| Rechunk.WriteAtCursor | rebirth/src/llama.cpp/src/llama-context.cpp:2970-2985 | a write at the cursor extends the bytes that are across and keeps all chunk sizes |
| Rechunk.CopyAcross | rebirth/src/llama.cpp/src/llama-context.cpp:2958-3008 | the destination ends with exactly the bytes of the source, after at most as many copies as there are chunks, within both lists; what is not visited is empty |
| Rechunk.ReadBack | rebirth/src/llama.cpp/src/llama-context.cpp:2924-3015 | refuses exactly different totals; otherwise the sizes stay and the bytes are those of the source |
| Rechunk.ShortcutAgrees | rebirth/src/llama.cpp/src/llama-context.cpp:2930-2947 | copying by index and copying with cursors give the same chunks |

## Left out

- Automaton.Grammar.Init: the caller answers for termination where the left-recursion check passes, because the check does not guarantee it; `Termination.TerminatesFromIff` says exactly when it holds for the rules that the root rule reaches, and `ReachedStacks.RunsTerminateIff` for the stacks of its runs.
- Automaton.Grammar.EmptyStackMeansWord: says nothing right after a piece that completes no code point, where the original has dropped the empty stack.
- CandidateFilter.RejectedPositions: needs rules that can start, as the original's assertion does.
- Automaton.Grammar.Init: the start rule must be in the table, where the original reads past its end; `DefinedNames.StartIsRuleIff` says which names meet this.
- Tokens.AcceptToken: tracks the language only without token elements; with them the stacks are stated exactly, but mixed words of tokens and code points have no language here.
- Tokens.Apply: scores are only masked or not masked, and the stacks must not be empty, as the original asserts.
- GrammarText.ParseRepetition: gives up where the minimum is above the maximum; the original does not check and would generate about 2^64 rules.
- GrammarText.Parse: after a failure the symbol ids are left open; the rules are gone.
- GrammarText.ParseToken: the vocabulary's tokenizer is an arbitrary function of the text.
- LazyTrigger.LazyGrammar.FindTrigger: patterns are arbitrary functions that give a place in the text or nothing; regular expressions are not modelled.
- BatchSplit.BatchAllocr.Init: one position for each token, no embeddings; multi-dimensional positions are not modelled, and sequence ids and their counts are present or absent together.
- BatchRun.InitBatch: finding room in memory for the micro-batches is a parameter of `Decoding.Decoder.Decode`.
- Outputs.OutputBuffer.OutputReorder: swaps whole rows of one buffer; the loops over columns and the other row buffers of the same order are not repeated.
- Decoding.Decoder.Decode: rows that are stored by token rather than by output, pooled embeddings and sampling on the device are not modelled.
- Decoding.Decoder.Decode: exact removal of a failed micro-batch is stated for batches without shared tokens and with increasing positions, because for others it is false (`Rollback.RunsUndoableIff`).
- Rechunk.ReadBack: one buffer type; the loop over buffer types does the same for each.
- Integer widths: positions, ids and counters are unbounded, except for the decoded values and the 32- and 64-bit numbers of grammar texts.
- Graph building, backends, schedulers, the memory modules themselves, vocabularies, samplers, session files, debug output and cloning are not part of this model.
