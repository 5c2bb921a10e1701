# PreSeQl: a verified model of the storage core and the SQL front end

PreSeQl is a small embedded SQL database written in C. This project models the parts of it that carry hard
invariants and proves them with Dafny: the memory arena, the radix tree of free pages that lives in it, the
free-page allocator of the pager with its header checksum, the slotted index page, the rollback journal, and the way
from SQL text over tokens and syntax trees to instructions.

Check it with `dafny verify dfyconfig.toml`.

## How it is built

Code that changes things in place is modelled in place. The arena is a chain of region objects, the radix tree is
nodes with child arrays, the pager holds a header page and a counter, the index page is an array of 4032 bytes, the
parser moves a cursor, the generator fills a doubling array. Each of these classes has an abstract value, and every
method states its new abstract value in terms of the old one. What the system promises is then proved about the
values: over every run, for every input, in both directions where it is an equivalence.

| files | what they model |
|---|---|
| `arena_model.dfy`, `arena.dfy`, `dynamic_array.dfy` | the bump allocator: snapshot, rewind, reset, trim, realloc, growing arrays |
| `ascending.dfy`, `radix_paths.dfy`, `radix_tree.dfy` | the 4-level, 16-way trie of page numbers, its minimum, its walk |
| `free_pages.dfy`, `pager.dfy` | one set of free pages held as trie, one-byte counter and header list |
| `crc32.dfy`, `database_header.dfy` | the checksum of section 8 of RFC 1952 and the header it protects |
| `tokenizer.dfy`, `patterns.dfy`, `layout.dfy` | the maximal-munch lexer, its patterns as regular expressions, from text to tokens and back |
| `grammar.dfy`, `language.dfy`, `front_end.dfy`, `parser.dfy` | the statements, the language the parser accepts, printing and reading back |
| `generator.dfy` | instructions, and statements read back from them |
| `index_model.dfy`, `index_page.dfy` | the slotted index page, as a value and as bytes |
| `journal.dfy` | the rollback journal as a state machine |
| `bytes.dfy`, `constants.dfy`, `options.dfy`, `sequences.dfy` | shared vocabulary |

## What was found

Some things one might expect of the code are false of it. For each there is the exact condition, as a lemma.

* A free page is handed out again exactly when the one-byte counter is not 0 (`ReusesIff`). The counter falls behind,
  because taking a page and allocating it both count it down, so a free page can be passed over
  (`FreePagePassedOver`). Safety does not depend on it: `EveryRunIsSafe` holds with
  `counter <= number of free pages` only.
* Closing and reopening keeps the free pages exactly when there are at most 32 (`ReopenKeeps`). Without a close, the
  header list goes on naming every free page until one is freed while 32 are free (`StepKeepsListedExactly`).
* `insert` accepts page 0, but `lookup`, `delete` and the drain take 0 for "none": a tree that holds page 0 is
  never drained (`Drain`).
* The newest slot id of an index page cannot be read, because ids start at 1 and the guard in `read_index_slot`
  compares with the number of slots. While the next slot is placed, the newest one is therefore compared through an
  uninitialised local variable. `StaysSortedWhateverIsUnread` says which inserts keep the directory sorted whatever
  that variable holds, `EveryRunSortedExactly` which runs do for given contents of it, and `TwoOutOfOrder` gives the
  runs of two inserts that do not.
* The program compiled from an INSERT does not determine the INSERT. `SameInsertCode` says which ones share their
  code, `DecodesInsertExactly` which programs they are compiled to, and `DeterminedExactly` that, among those with one
  value per column, it is determined exactly when all values are integers other than 0.
* An INSERT may list more columns than it has values. Exactly then the generator reads behind the values
  (`GenerateInsert`).
* Rolling back a journal transaction inside another one takes the id back to the outer one, but discards the outer
  one's pages as well, although the comment in the source suggests rolling them back one by one: the journal is as
  before the inner one exactly when there was nothing to roll back (`InnerRollbackUndoesExactly`).
* Beginning transaction 0 after the highest 32-bit id counts as "the next one"; that is the only step that can
  put the ids in the journal out of order (`StepKeepsOrderedExactly`).
* A list of tokens written out with blanks between them need not be read back: a lone quote joins what follows up to
  the next quote (`QuotesMerge`). It is read back exactly when no quote follows a lone one (`SpacedScansExactly`), and
  in any layout, with or without blanks, exactly when no lexeme runs on into what follows it (`WeaveScansExactly`).
  The tokens of a text are always of that kind (`Respelled`).

## Model

| member | source | states |
|---|---|---|
| ArenaModel.EveryRunIsSafe | src/allocator/arena.h:292-439 | over every run of alloc, realloc, snapshot, rewind, reset and trim with marks used last-in-first-out, all live blocks lie inside their region and are pairwise disjoint, and every region behind `end` is empty |
| ArenaModel.ExecuteSafe | src/allocator/arena.h:292-439 | each run from a state that satisfies the invariant ends in one that does |
| ArenaModel.StepSafe | src/allocator/arena.h:292-439 | every enabled operation keeps the invariant between regions, live blocks and nested marks |
| ArenaModel.RewindRestores | src/allocator/arena.h:380-417 | snapshot, any allocations, rewind: fill counts and end are those of the snapshot, old regions are kept, new ones are empty |
| ArenaModel.ReplayAfterRewind | src/allocator/arena.h:380-417 | allocating the same sizes again after a rewind gives the same addresses and makes no new region, also when the arena was uninitialised |
| ArenaModel.AllocAboveTop | src/allocator/arena.h:292-319 | a new block starts at or behind the top of everything allocated before |
| ArenaModel.SeekAhead | src/allocator/arena.h:304-306 | the search for room ends at the same region in an arena that has only empty regions more |
| ArenaModel.AllocExactly | src/allocator/arena.h:292-319 | from what is free in each region alone: the block lands in the first region from `end` on with room for it, behind what is there, and no region is made; only when none has room, one of 8192 words or of the size asked for, whichever is larger, is made |
| ArenaModel.RoomIsUsed | src/allocator/arena.h:304-306 | as long as some region from `end` on has room, no region is made and `end` does not go past it |
| ArenaModel.WordsAreLeast | src/allocator/arena.h:294-295 | a request is rounded up to the least number of words that holds it |
| ArenaModel.TrimExactly | src/allocator/arena.h:431-439 | what is cut off are exactly the regions behind `end`, which are empty, so a later request needs a new region exactly when `end` has no room |
| Arena.Arena.Alloc | src/allocator/arena.h:292-319 | the linked chain goes from one state to the next as the model says, and the returned pointer denotes the model's address |
| Arena.Arena.AddRegion | src/allocator/arena.h:308-314 | one region is linked behind the last one, all others stay as they are |
| Arena.Arena.SeekRoom | src/allocator/arena.h:304-306 | `end` moves to the first region that fits or to the last |
| Arena.Arena.Snapshot | src/allocator/arena.h:380-393 | the mark denotes the current end and fill count, or nothing in an uninitialised arena |
| Arena.Arena.Reset | src/allocator/arena.h:395-402 | all counts are 0 and `end` is `begin`, no region is lost |
| Arena.Arena.Rewind | src/allocator/arena.h:404-417 | the chain is rewound to the mark as in the model |
| Arena.Arena.Trim | src/allocator/arena.h:431-439 | the regions behind `end` leave the chain |
| Arena.Arena.Free | src/allocator/arena.h:419-429 | the arena is uninitialised again |
| Arena.Arena.Realloc | src/allocator/arena.h:321-331 | shrinking returns the same block; growing returns a fresh one that starts with the old contents, and every byte allocated before keeps its value |
| DynamicArray.DynamicArray.Append | src/allocator/arena.h:96-108 | the contents in the arena are the old ones and the item; the block moves only when it was full, the capacity then goes from 0 to 256 or doubles, and otherwise stays; and all abandoned blocks together are smaller than the current one |
| DynamicArray.DynamicArray.AppendMany | src/allocator/arena.h:111-125 | the contents are the old ones and all new items in order; the block moves only when they do not fit, to the first doubling at which they do |
| DynamicArray.Move | src/allocator/arena.h:100-103 | growing through `arena_realloc` takes the items along and writes no byte that was allocated before |
| DynamicArray.Put | src/allocator/arena.h:123-123 | storing behind the last item appends it and writes no allocated byte outside the array's own block |
| DynamicArray.DoubledSuffices | src/allocator/arena.h:114-116 | the doubling loop ends with a capacity that suffices and that half of it would not |
| Ascending.ListsUnique | src/algorithm/radix_tree.c:178-246 | a set of pages has only one strictly ascending list, so "sorted" has one meaning |
| RadixPaths.PresentIsInhabited | src/algorithm/radix_tree.c:29-113 | without dead branches there is a member below every node but the root |
| RadixPaths.AbsentIsEmpty | src/algorithm/radix_tree.c:29-113 | below an absent node there is none |
| RadixPaths.Grow | src/algorithm/radix_tree.c:35-44 | adding one child moves the only possible dead end down to it |
| RadixPaths.Prune | src/algorithm/radix_tree.c:101-112 | removing a childless child moves the only possible dead end up to its parent |
| RadixPaths.SkipAbsent | src/algorithm/radix_tree.c:124-127 | stepping over absent children steps over no member, which is what makes the greedy descent correct |
| RadixTree.RadixTree.Insert | src/algorithm/radix_tree.c:29-46 | the heap stays an unaliased tree without dead branches, its nodes in disjoint arena blocks, and the set gains exactly the page |
| RadixTree.RadixTree.Lookup | src/algorithm/radix_tree.c:48-65 | true exactly for nonzero members |
| RadixTree.RadixTree.Delete | src/algorithm/radix_tree.c:78-113 | the same shape, and the set loses exactly the page; page 0 is left alone |
| RadixTree.RadixTree.PruneUpwards | src/algorithm/radix_tree.c:101-112 | clearing from the leaf upwards removes one member and leaves no dead branch |
| RadixTree.RadixTree.HasChildren | src/algorithm/radix_tree.c:68-73 | whether some child is there |
| RadixTree.RadixTree.FindPath | src/algorithm/radix_tree.c:81-97 | the nodes and indices recorded are the path of the page, or the page is no member |
| RadixTree.RadixTree.Leftmost | src/algorithm/radix_tree.c:119-137 | descending to the first child at every level without backtracking ends at the minimum of the set |
| RadixTree.RadixTree.PeekMin | src/algorithm/radix_tree.c:116-138 | the minimum of the set, 0 if it is empty |
| RadixTree.RadixTree.PopMin | src/algorithm/radix_tree.c:142-176 | the minimum is returned and exactly that member removed |
| RadixTree.RadixTree.Drain | src/algorithm/radix_tree.c:142-176 | popping until 0 yields the whole set in strictly ascending order and ends; with page 0 in the set it stops at once |
| RadixTree.RadixTree.WalkNode | src/algorithm/radix_tree.c:179-196 | the members below a node are visited once each, in strictly ascending order |
| RadixTree.RadixTree.ToFreelist | src/algorithm/radix_tree.c:207-234 | the min(room, size) smallest members in ascending order; the rest of the buffer is untouched |
| RadixTree.RadixTree.FromFreelist | src/algorithm/radix_tree.c:238-246 | the set gains the nonzero entries of the list |
| RadixTree.LoadThenDump | src/algorithm/radix_tree.c:221-246 | loading any list into a new tree and dumping it with enough room gives its nonzero entries, sorted and each once |
| RadixTree.SeparateAlloc | src/algorithm/radix_tree.c:39-40 | a node's block is disjoint from those of all other nodes |
| FreePages.EveryRunIsSafe | src/pager/pager.c:116-245 | over every run of the protocol the free pages and the pages in use are disjoint and within the file, the counter is at most the number of free pages, the page handed out is never in use, and is the smallest free page when the counter is not 0 |
| FreePages.RunKeepsInv | src/pager/pager.c:116-245 | every run from a state that satisfies the invariant keeps it |
| FreePages.StepKeepsInv | src/pager/pager.c:116-245 | get, allocate, free, synchronise and reopen each keep it |
| FreePages.GetIsSafe | src/pager/pager.c:156-196 | the page handed out is not in use and not 0 |
| FreePages.ReopenKeeps | src/pager/pager.c:92-132 | synchronise and reload yields a subset of the free pages, all of them exactly when there are at most 32 |
| FreePages.ReopenLosesNoneIff | src/pager/pager.c:199-224 | when reopening loses no page number |
| FreePages.StepLosesNone | src/pager/pager.c:116-245 | no other step loses a page number: each is free, in use or handed out |
| FreePages.DriftStep | src/pager/pager.c:134-196 | by how much each step lets the counter fall behind the number of free pages, the wrap at 256 included |
| FreePages.ReusesIff | src/pager/pager.c:156-196 | exactly when a free page is reused |
| FreePages.FreePagePassedOver | src/pager/pager.c:134-196 | two pages freed and one taken again, then the other free page is passed over |
| FreePages.SyncListOk | src/pager/pager.c:199-224 | the header list becomes the smallest free pages, at most 32, in order and without duplicates |
| FreePages.StepKeepsListedExactly | src/pager/pager.c:116-224 | a header list that names every free page still does after a step, exactly unless the step frees a page while 32 are free |
| FreePages.EveryRunIsListed | src/pager/pager.c:92-224 | over every run in which that does not happen the header alone, without a synchronisation, gives the whole set of free pages back |
| FreePages.LoadKeepsExactly | src/pager/pager.c:92-113 | reading the header gives the set of free pages exactly when the list names them all |
| FreePages.FullListStays | src/pager/pager.c:127-129 | a full list is left as it is |
| FreePages.WithoutKeepsOrder | src/pager/pager.c:174-185 | what stands before and behind the entry that leaves the list stays in order |
| Pager.Pager.MarkPageFree | src/pager/pager.c:116-132 | trie, counter and header list change together as in the model |
| Pager.Pager.MarkPageUsed | src/pager/pager.c:135-153 | trie, counter and highest page change together |
| Pager.Pager.GetFreePage | src/pager/pager.c:156-196 | the page and the new state are those of the model; the list loses the page and keeps its order |
| Pager.HeaderPage.RemoveFree | src/pager/pager.c:174-185 | the shifting loop removes the first entry that equals the page |
| Pager.Pager.SyncFreePageList | src/pager/pager.c:199-224 | the header list is rewritten from the trie |
| Pager.Pager.LoadFreeList | src/pager/pager.c:92-113 | trie and counter are rebuilt from the header list |
| Pager.Pager.Close | src/pager/pager.c:379-397 | the free pages are synchronised and the header verifies afterwards exactly if its magic number is right |
| Pager.Pager.Verify | src/pager/pager.c:526-552 | the verdict of the header, which is left as it was |
| Pager.Pager.CloseAndReopen | src/pager/pager.c:379-397 | close, verify, reload: nothing corrupt, and the free pages are the 32 smallest |
| Crc32.Calculator.Calculate | src/algorithm/crc.c:34-45 | the table-driven result equals the bit-at-a-time CRC of section 8 of RFC 1952, for every message |
| Crc32.Calculator.InitTable | src/algorithm/crc.c:9-25 | every one of the 256 entries is eight steps from its index |
| Crc32.ByteStep | src/algorithm/crc.c:40-42 | one table step equals eight bit steps |
| Crc32.FeedXor | src/algorithm/crc.c:14-21 | the shift register is linear over exclusive or, for messages of any length |
| Crc32.FeedWord | src/algorithm/crc.c:14-21 | 32 message bits from the zero state and the same bits as the initial state lead to the same register |
| Crc32.ShiftNLosesNothing | src/algorithm/crc.c:15-21 | no number of steps turns a nonzero register into zero |
| Crc32.BurstDetected | src/algorithm/crc.c:34-45 | two messages of one length that differ, but only inside 32 consecutive bits, have different checksums |
| Crc32.FourByteBurstDetected | src/algorithm/crc.c:34-45 | the same for four consecutive bytes |
| Crc32.ResidueIsFixed | src/algorithm/crc.c:34-45 | every message followed by its own checksum, low byte first, has the same checksum, that of four zero bytes |
| Crc32.CrcOfOnes | src/algorithm/crc.c:36-44 | the checksum of four bytes 255 is all ones, which fixes the initial value and the final complement |
| Crc32.LastBitIsPolynomial | src/algorithm/crc.c:13-21 | the checksums of two messages that differ in their last bit only differ by the polynomial |
| Crc32.PolynomialTerms | src/algorithm/crc.c:13-13 | the polynomial has the terms x^26, x^23, ..., x, 1 of section 8 of RFC 1952, lowest power in the highest bit |
| DatabaseHeader.CoveredInjective | src/pager/db/base/page.h:26-39 | the 92 covered bytes determine every header field but the checksum |
| DatabaseHeader.HeaderLayout | src/pager/db/base/page.h:26-39 | at which of the 92 bytes each field stands, low byte first |
| DatabaseHeader.MagicNumberIs | src/pager/db/base/page.h:27-27 | the magic number spells SQLSHITE |
| DatabaseHeader.BurstIsCorrupt | src/pager/pager.c:540-549 | a sealed header changed inside one window of 32 covered bits is reported corrupt |
| DatabaseHeader.AdjacentFieldsAreCovered | src/pager/pager.c:540-549 | so is one with one or two adjacent fields changed |
| DatabaseHeader.HighestPageIsCovered | src/pager/pager.c:540-549 | a sealed header with another highest page verifies exactly if it is the same page |
| Tokenizer.LongestMatch | src/compiler/tokenizer.c:209-233 | the loop over all candidates finds the longest accepted prefix and its class |
| Tokenizer.NoneLonger | src/compiler/tokenizer.c:215-233 | no longer prefix is accepted by any class |
| Tokenizer.Tokenize | src/compiler/tokenizer.c:199-259 | the tokens, up to the first character that nothing accepts, with their line numbers |
| Tokenizer.ScanIsLongest | src/compiler/tokenizer.c:147-233 | trying every prefix finds what one pass over the characters finds, also for a literal that is never closed |
| Tokenizer.Accepted | src/compiler/tokenizer.c:221-227 | which strings are accepted at all; keywords and type names are identifiers |
| Patterns.IdentifierIsPattern | src/compiler/tokenizer.c:177-190 | identifiers are exactly the strings that their regular expression matches |
| Patterns.IntegerIsPattern | src/compiler/tokenizer.c:162-175 | so are number literals |
| Patterns.VarcharIsPattern | src/compiler/tokenizer.c:147-160 | and text literals |
| Patterns.OneCharacter | src/compiler/tokenizer.c:235-254 | which texts of one character are accepted |
| Layout.ScanCovers | src/compiler/tokenizer.c:199-259 | the input is exactly the lexemes with blanks around them, each the longest accepted prefix at its place and of its class, followed by nothing on success and, on failure, by a rest whose first character is no blank and starts no token; each token carries the number of line breaks in the blanks before it |
| Layout.NothingStarts | src/compiler/tokenizer.c:235-252 | nothing is matched exactly at the end or at a character that starts no token |
| Layout.LexemeStandsExactly | src/compiler/tokenizer.c:215-233 | which texts may follow a lexeme, lone quotes included, for it to be read whole |
| Layout.WeaveScansExactly | src/compiler/tokenizer.c:199-259 | tokens written out in any layout, with or without blanks, are read back exactly when no lexeme runs on into what follows it |
| Layout.SpacedScansExactly | src/compiler/tokenizer.c:199-259 | with blanks between any two of them, exactly when no quote follows a lone one |
| Layout.SpellScansExactly | src/compiler/tokenizer.c:199-259 | the same for one blank between any two |
| Layout.BodyCloses | src/compiler/tokenizer.c:147-160 | an opened literal is closed exactly when a quote follows |
| Layout.ScanQuotesLast | src/compiler/tokenizer.c:215-233 | behind a lone quote the lexer finds no other quote, alone or in a literal |
| Layout.Respelled | src/compiler/tokenizer.c:199-259 | the tokens of any text, accepted or not, are read back when written out; only line numbers change |
| Layout.QuotesMerge | src/compiler/tokenizer.c:147-160 | two lone quotes with a blank between them become one literal |
| Layout.ScanGivesLexed | src/compiler/tokenizer.c:221-237 | the class of a token is the class of its lexeme |
| Language.DecimalAtoi | src/compiler/parser.c:184-188 | a number literal is written back as it was read |
| Language.AtoiDecimal | src/compiler/parser.c:184-188 | and read back as it was written |
| Language.AtoiOrder | src/compiler/parser.c:184-188 | the longer number literal is the greater, and of two equally long ones the first digit that differs decides |
| Language.QuoteUnquote | src/compiler/parser.c:179-183 | a text literal is its text in quotes, with quotes inside doubled |
| Language.SelectRead | src/compiler/parser.c:90-135 | the spelling of a SELECT is read as that SELECT, whatever stands in place of the semicolon |
| Language.InsertRead | src/compiler/parser.c:137-219 | the spelling of an INSERT is read as that INSERT |
| Language.CreateRead | src/compiler/parser.c:221-311 | the spelling of a CREATE TABLE is read as that CREATE TABLE, with VARCHAR standing for VARCHAR(255) |
| Language.ControlRead | src/compiler/parser.c:313-337 | the spellings of BEGIN TRANSACTION and COMMIT are read |
| Language.SelectSpelled | src/compiler/parser.c:90-135 | whatever is read as a SELECT is a well-formed one and spelled so |
| Language.InsertSpelled | src/compiler/parser.c:137-219 | the same for INSERT |
| Language.CreateSpelled | src/compiler/parser.c:221-311 | the same for CREATE TABLE, each column with or without a written length |
| Language.SpellingIsRead | src/compiler/parser.c:493-541 | every spelling of a well-formed statement is read as that statement |
| Language.ReadIsSpelled | src/compiler/parser.c:493-541 | what is accepted spells the well-formed statement that is returned |
| Language.AcceptsExactly | src/compiler/parser.c:493-541 | a statement is returned exactly for the token lists that spell it |
| Language.SelectWithoutSemicolon | src/compiler/parser.c:90-135 | a SELECT is read without its semicolon |
| Language.ControlWithoutSemicolon | src/compiler/parser.c:313-337 | BEGIN TRANSACTION and COMMIT are not |
| Language.TokensLexed | src/compiler/parser.c:493-541 | the tokens that a well-formed statement is written with are tokens of the lexer |
| FrontEnd.LinesDoNotMatter | src/compiler/parser.c:21-60 | line numbers have no influence on what is parsed |
| FrontEnd.LayoutIsReadExactly | src/compiler/parser.c:493-541 | a well-formed statement written in any layout, with or without blanks between its tokens, is lexed and parsed back to exactly that statement if and only if no token runs on into what follows it |
| FrontEnd.PrintThenParse | src/compiler/parser.c:493-541 | printing, lexing and parsing gives every well-formed statement back |
| FrontEnd.PrintIsInjective | src/compiler/parser.c:493-541 | different statements are printed differently |
| FrontEnd.PrintedSelect | src/compiler/parser.c:90-135 | the words of a SELECT in their order |
| FrontEnd.PrintedInsert | src/compiler/parser.c:137-219 | the words of an INSERT in their order |
| FrontEnd.PrintedCreate | src/compiler/parser.c:221-311 | the words of a CREATE TABLE in their order |
| FrontEnd.PrintedControl | src/compiler/parser.c:313-337 | the words of BEGIN TRANSACTION and COMMIT |
| FrontEnd.TextAcceptsExactly | src/compiler/parser.c:493-541 | the texts that are accepted are those that lex to a spelling of a well-formed statement, which is the result |
| FrontEnd.ReprintedTextIsRead | src/compiler/parser.c:493-541 | the result of any accepted text is well-formed, and its printed text is read as the same statement |
| Parser.Parser.Expect | src/compiler/parser.c:50-60 | one token is consumed even if it is the wrong one |
| Parser.Parser.Match | src/compiler/parser.c:39-48 | the cursor moves exactly if the next token is of the class |
| Parser.Parser.ParseNames | src/compiler/parser.c:104-112 | the loop collects the names and stops where the recursive definition does, also on errors |
| Parser.Parser.ParseValues | src/compiler/parser.c:171-198 | the same for the values of an INSERT |
| Parser.Parser.ParseDefs | src/compiler/parser.c:239-292 | the same for the columns of a CREATE TABLE |
| Parser.Parser.ParseSelect | src/compiler/parser.c:90-135 | the result, and where the cursor is left |
| Parser.Parser.ParseInsert | src/compiler/parser.c:137-219 | the result, and where the cursor is left |
| Parser.Parser.ParseCreate | src/compiler/parser.c:221-311 | the result, and where the cursor is left |
| Parser.ParseTokens | src/compiler/parser.c:493-541 | the first token decides on the routine, and the result is that of the definition |
| Parser.ParseText | src/compiler/parser.c:493-541 | lexer and parser one after the other give the statement of the text |
| Generator.CompiledProgram.Emit | src/compiler/generator.c:28-59 | one instruction is appended and none is lost when the array doubles; beyond 16, the array is less than twice as long as the program |
| Generator.GenerateSelect | src/compiler/generator.c:62-88 | the code of the SELECT is appended |
| Generator.GenerateInsert | src/compiler/generator.c:111-138 | the code of the INSERT is appended, exactly if there is a value for every listed column; otherwise the inserts up to the last value are, and then the generator leaves the values |
| Generator.GenerateCreate | src/compiler/generator.c:140-159 | the code of the CREATE TABLE is appended |
| Generator.GenerateCode | src/compiler/generator.c:162-191 | a fresh program that holds exactly the code of the statement, for all statements but the INSERTs with more columns than values |
| Generator.DecodesExactly | src/compiler/generator.c:62-159 | a decoder that looks at opcodes, parameters and texts gives back a statement exactly if the list is the code of that statement, which is no INSERT |
| Generator.SelectLayout | src/compiler/generator.c:62-88 | which instruction of the code of a SELECT holds what, -1 standing for all columns |
| Generator.CreateLayout | src/compiler/generator.c:140-159 | the same for CREATE TABLE, with 1 for INT and 2 for VARCHAR |
| Generator.ControlLayout | src/compiler/generator.c:91-108 | the programs of BEGIN, COMMIT and ROLLBACK |
| Generator.CodeIsInjective | src/compiler/generator.c:62-191 | no other statement, INSERTs included, has the code of a statement that is no INSERT |
| Generator.SameInsertCode | src/compiler/generator.c:111-138 | exactly which INSERTs have the same code |
| Generator.InsertLayout | src/compiler/generator.c:111-138 | what the code of an INSERT holds: BEGIN, the table, then for the i-th column the place i and either the integer with the name of the column or 0 with the text, then COMMIT and HALT |
| Generator.DecodesInsertExactly | src/compiler/generator.c:111-138 | a program is the code of an INSERT exactly when a decoder that looks at its instructions finds an INSERT with the same slots |
| Generator.DeterminedExactly | src/compiler/generator.c:120-131 | the code of a well-formed INSERT with one value per column determines it exactly when all values are integers other than 0 |
| Generator.ExtraValuesVanish | src/compiler/generator.c:120-131 | values beyond the listed columns leave no trace in the code |
| Generator.TextToCodeAndBack | src/compiler/generator.c:162-191 | the printed text of a statement compiles to its code, and the statement can be read back from it unless it is an INSERT |
| IndexModel.EveryRunKeepsSlots | src/pager/db/index/index_page.c:98-141 | after every run of inserts the page holds the first 68 slots under the ids 1, 2, 3 ..., and the directory lists each id once |
| IndexModel.EveryRunReadsBack | src/pager/db/index/index_page.c:80-95 | whatever keys were compared, every id but the newest reads what was written under it, and no other id reads anything |
| IndexModel.InsertKeepsValid | src/pager/db/index/index_page.c:98-141 | the ids stay 1 to n, each listed once |
| IndexModel.StaysSortedExactly | src/pager/db/index/index_page.c:105-116 | a sorted directory stays sorted exactly when the leftover key does no harm |
| IndexModel.StaysSortedWhateverIsUnread | src/pager/db/index/index_page.c:105-116 | it stays sorted whatever the leftover key is exactly when the scan stops before the newest id, or the new key equals that one's, or is the greatest there is |
| IndexModel.EveryRunSortedExactly | src/pager/db/index/index_page.c:105-116 | after every run the directory is sorted exactly when no leftover key of the run did harm |
| IndexModel.TwoOutOfOrder | src/pager/db/index/index_page.c:80-116 | two inserts that end up in the wrong order |
| IndexModel.LessTotal | src/pager/db/index/index_page.c:21-23 | of two different keys one is less, and only one |
| IndexModel.FirstDifferenceDecides | src/pager/db/index/index_page.c:21-23 | the order is that of memcmp: the first byte in which two keys differ decides |
| IndexPage.DecodeEncode | src/pager/db/index/index_page.c:86-128 | a record is read as it was written |
| IndexPage.RecordLayout | src/pager/db/index/index_page.c:123-128 | at which of the 23 bytes each field of a record stands |
| IndexPage.EntryLayout | src/pager/db/index/index_page.c:130-133 | the same for the id, offset and size of a directory entry |
| IndexPage.IndexPage.PageLayout | src/pager/db/index/index_page.c:105-133 | the i-th entry stands at byte 34 + 24 i and points to the record of its id, at 4032 - 23 times the id |
| IndexPage.WrittenHolds | src/pager/db/index/index_page.c:118-135 | the stores of an insert leave a page whose bytes hold the directory with the new id at its place and all records, the new one included |
| IndexPage.StoreSlot | src/pager/db/index/index_page.c:118-135 | the moves and stores in place produce those bytes |
| IndexPage.IndexPage.constructor | src/pager/db/index/index_page.c:43-57 | an empty page, whatever the bytes were |
| IndexPage.IndexPage.FindEmptySlot | src/pager/db/index/index_page.c:60-77 | for any header, a freed id if there is one, else the next id exactly while the page is below its threshold and has room, else none; a key that is too long gets none |
| IndexPage.IndexPage.ReadSlot | src/pager/db/index/index_page.c:80-95 | the slot of every id from 1 up to, but not including, the newest |
| IndexPage.IndexPage.FindPosition | src/pager/db/index/index_page.c:105-116 | the first entry whose key, as far as it can be read, is greater |
| IndexPage.IndexPage.WriteSlot | src/pager/db/index/index_page.c:98-141 | the page changes as one insert of the model; a full page is left as it is |
| IndexPage.IndexPage.DirectoryBelowRecords | src/pager/db/index/index_page.c:137-140 | `free_total` is exactly the space between the directory and the records, which never meet |
| Journal.HoldsWhatWasSaved | src/pager/journal/journal.c:170-345 | over every run the entries are exactly the pages saved since the last truncation, in order |
| Journal.StepKeepsOrderedExactly | src/pager/journal/journal.c:170-345 | each call keeps the ids of the entries non-decreasing and at most the highest id, except exactly when the ids wrap around |
| Journal.EveryRunIsOrdered | src/pager/journal/journal.c:170-345 | so does every run without wrap-around |
| Journal.RollbackUndoesExactly | src/pager/journal/journal.c:301-345 | begin, any saved pages, rollback leaves the journal as it was exactly when it held no pages |
| Journal.InnerRollbackUndoesExactly | src/pager/journal/journal.c:299-345 | a transaction begun inside another one and rolled back leaves the journal as it was before exactly when it was empty and the outer one had saved nothing; the id always goes back |
| Journal.OnlyTheBegunTransaction | src/pager/journal/journal.c:203-345 | while a transaction runs, pages are saved, commits and rollbacks succeed for its id and for no other, and a refused call changes nothing |
| Journal.EndOfTransaction | src/pager/journal/journal.c:170-345 | a commit leaves its own id and no pages, a rollback the id before, modulo 2^32; so a transaction begins without a truncation exactly if its id is the successor, or after a rollback the same id again |
| Journal.HeaderLayout | src/pager/journal/base/page.h:5-11 | at which of the 20 covered bytes each field stands |
| Journal.HighestIsCovered | src/pager/journal/journal.c:107-132 | a sealed header with another highest id verifies exactly if it is the same id |
| Journal.Journal.constructor | src/pager/journal/journal.c:81-97 | a new journal is empty, of header size, and its header verifies |
| Journal.Journal.BeginTransaction | src/pager/journal/journal.c:170-200 | the state of the model; the file is the header and the entries, and the checksum verifies |
| Journal.Journal.AddPage | src/pager/journal/journal.c:203-253 | one entry more, or an error and no change |
| Journal.Journal.CommitTransaction | src/pager/journal/journal.c:256-297 | the file is cut back to a header that verifies, or an error and no change |
| Journal.Journal.RollbackTransaction | src/pager/journal/journal.c:301-345 | the same, with the id before |
| Journal.Journal.IsValidTransaction | src/pager/journal/journal.c:348-357 | whether beginning the transaction would keep the pages |

## Left out

- Memory exhaustion, mapping, file growth, synchronisation to disk and file descriptors: every system call succeeds.
- The radix tree is tied to the arena through the arena's abstract state: each node has a block of its size, all blocks are disjoint and inside their regions, but node fields are object fields and not bytes of the region.
- Arena back ends other than malloc, and the string helpers (`arena_strdup`, `arena_sprintf`, `arena_memdup`), which are an allocation and a copy.
- ArenaModel.EveryRunIsSafe: marks are used last-in-first-out, as a rewind to a mark that an earlier rewind or reset has passed is a misuse of the interface.
- FreePages.EveryRunIsSafe: holds for the protocol in which a page is allocated before the next one is asked for, only pages in use are freed, and the highest page stays below the 16-bit limit; other use of the calls is not covered.
- What `allocate_page` writes into the page itself; the entry in the free-page accounting is modelled.
- Candidates of 1024 bytes and more, which overrun a local buffer of `tokenize`, and inputs with a zero byte, which end there: texts are strings of any length.
- The regular-expression library: its three patterns are modelled with the textbook meaning of regular expressions.
- Language.AtoiDecimal: numbers are unbounded; `atoi` of a literal of 2^31 or more is undefined in C.
- The parser's error messages, and `parse_tokens`, the debugging variant that prints what it has read.
- `parse_column_type`, which nothing calls.
- Generator.GenerateInsert: what the program does after it has read behind the values, which is undefined in C.
- Column indices beyond the range of a C int in emitted instructions.
- The virtual machine, whose handlers only print, and the client loop.
- `free_index_slot`, which gives back 40 of the 47 bytes of a slot and leaves `free_end` as it is: index pages are modelled under inserts, where the list of freed slots stays empty.
- IndexModel.Insert: the key in the uninitialised variable is an input of each insert, the same for the whole scan; only the newest id is compared with it.
- The operations on trees of several pages (`btree_*`): they use positions of the directory as slot ids, and splits free slots while walking over them, so a tree built on them would be an invention.
- `encode_int_key`, which no code calls.
- `vacuum_page`, overflow, data and catalog pages.
- Restoring pages on rollback, which the source leaves to its caller, and opening an existing journal.
- `RollbackJournalPage`, the layout of a journal entry, is not part of this model: the repository does not define it. Its size is a parameter.
