# A verified model of the ad editor's core

This project models the parts of the ad text editor that its other parts rely on, and proves what they
promise. Each module stands for a source file or a part of one.

- `Utf8`, `LineIndex`, `Lines`, `Slices`, `GapBuffers`: the gap buffer. A class keeps UTF-8 bytes in one
  array with a movable gap, an index of the newlines with raw byte and character offsets, a character count
  and a cache of byte offsets. One ghost text is their common meaning, and `GapBuffer.Valid` says that they
  all agree with it: the bytes are the encoding of the text on both sides of the gap, the index is exactly its
  newlines, the gap is never below its minimum, and every cached offset is what walking from the start gives.
  Every mutator keeps this and makes exactly its splice.
- `Lsp`: positions of the Language Server Protocol in its three encodings.
- `RegexAst`, `RegexTransform`, `RegexParser`, `RegexVm`, `RegexCompile`, `RegexProgram`, `RegexOptimise`,
  `RegexStrip`: regular expressions with their language, rewrites of expressions, the reading of counted repetitions,
  the compiler, and the two passes over its programs. Programs have the usual nondeterministic meaning over
  instruction, position and capture slots.
- `EditLogs`, `History`, `Buffers`: the undo log with its combining of edits, a state machine of edits, undos and
  redos, and the buffer class that implements its steps on a gap buffer.
- `Tries`: the trie, from the tree of keys to flat arrays, and its queries and merges.
- `Exec`: the application of edit actions. `Addresses`: their parser, and a text for each that it reads back.
  `ZipLists`: the focus list. `Basics`, `Decimals`: what several modules use.

A contract of the form "exactly when" is proved in both directions. Where the code does not do what its
documentation or an obvious reading promises, the model follows the code, and a lemma says when it does:

- Stripping unreachable instructions lowers the first target of a split twice and the second never if both
  lie behind a removed instruction and the first is not the next one; and the table entries of a removed
  instruction pass to the one behind it, which is then lowered for them too (src/regex/compile.rs:324-341).
  `RegexStrip.StrippedRightly` says for every program exactly when neither happens.
  `RegexStrip.StrippingChangesLanguage` carries the first through from the alternation of `a+` and `bc?d` to a wrong
  match, and `RegexStrip.InheritedEntriesChangeLanguage` the second from `(?:(?:(?:a*)*)*)+`, which matches everywhere,
  to a program that finds nothing in any text.
- Combining edits compares character indices with byte lengths (src/buffer/edit.rs:102, 122).
- A deletion of a range at the end of the text is recorded as deleting nothing, which replays as deleting
  something, unless it is combined with a deletion at the same place (src/buffer/mod.rs:1102-1115, 1302-1320).
- The dot after a program counts replaced bytes as characters (src/exec/mod.rs:440-444).
- `Clear` keeps the cache when the gap is at the start already (src/buffer/internal.rs:445-453, 916-934).
- Replacing character classes by common ones ignores further ranges and lets negated classes match newlines
  (src/regex/ast.rs:321-369).
- A counted repetition `{n,m}` that parses underflows for `m < n` (src/regex/ast.rs:491-511, 687-727).
- The offset of `insert_xdot` is counted before line endings are normalised (src/buffer/mod.rs:1344).
- `ZipList::extract` keeps the elements that satisfy the predicate and takes out the others, against its comment;
  `ZipLists.ExtractsOthers` says that the two never agree (src/ziplist.rs:554-593).

Lemmas are written with `{:induction false}` where Dafny would otherwise add an induction hypothesis of its own.

## Model

| member | source | states |
|---|---|---|
| Utf8.DecodeAtInvertsEncode | src/buffer/internal.rs:1507-1545 | reading forwards at a character boundary gives the character whose encoding starts there, for every character and width |
| Utf8.DecodeEndingAtInvertsEncode | src/buffer/internal.rs:1547-1577 | reading backwards from the last byte of a character gives that character |
| Utf8.DecodeCharAt | src/buffer/internal.rs:1507-1545 | decode_char_at re-encodes to the bytes that it read |
| Utf8.DecodeCharEndingAt | src/buffer/internal.rs:1547-1577 | decode_char_ending_at re-encodes to the bytes that it read |
| Utf8.EncodedAtUnique | src/buffer/internal.rs:1507-1545 | at most one character is encoded at an offset |
| Utf8.EncodeAllConcat | src/buffer/internal.rs:745-771 | the bytes of two texts put together are their bytes put together |
| Utf8.CharEncodedAt | src/buffer/internal.rs:1399-1415 | character `p` of a text is encoded at the byte length of what comes before it, and ends before that of the next one |
| LineIndex.EndingsSound | src/buffer/internal.rs:127-139 | every entry of the newline index is a newline, at its character offset and at its byte offset |
| LineIndex.EndingsComplete | src/buffer/internal.rs:127-139 | every newline has its entry, at the position that counting earlier newlines gives |
| LineIndex.EndingsIncreasing | src/buffer/internal.rs:127-139 | the index is strictly increasing in bytes and in characters |
| LineIndex.RawEndingsSound | src/buffer/internal.rs:219-257 | with a gap in the text the entries hold raw array offsets of the newlines |
| LineIndex.RawEndingsIncreasing | src/buffer/internal.rs:219-257 | the whole index, on both sides of the gap, is strictly increasing |
| LineIndex.RawEndingsComplete | src/buffer/internal.rs:219-257 | no newline on either side of the gap is missing from the index |
| LineIndex.PartitionAt | src/buffer/internal.rs:930-953 | a partition point of a split list of entries falls exactly between the parts |
| LineIndex.IndexMovingLeft | src/buffer/internal.rs:929-939 | moving the gap left: shifting the entries between two partition points gives the index of the same text with the gap moved |
| LineIndex.IndexMovingRight | src/buffer/internal.rs:941-953 | moving the gap right: the same for the text that goes from behind the gap to its front |
| LineIndex.IndexGrowing | src/buffer/internal.rs:878-914 | growing the gap: the entries at or behind the `<=` bound are exactly those behind the gap |
| LineIndex.IndexInserting | src/buffer/internal.rs:828-841 | inserting: new entries go between those in front of the text and those behind it |
| LineIndex.IndexRetaining | src/buffer/internal.rs:843-876 | removing: the entries that are kept are exactly those of the text that is left |
| LineIndex.RawOfMonotone | src/buffer/internal.rs:1067-1150 | later characters start at later raw bytes, whatever the gap |
| Lines.LinesFlatten | src/buffer/internal.rs:382-394 | the lines of a text put together are the text, and there is one more of them than newlines |
| Lines.LineIsBetween | src/buffer/internal.rs:510-538 | line `k` is the text from where it starts to behind its newline |
| Lines.LineOfLineStart | src/buffer/internal.rs:652-698 | the line that holds the first character of line `k` is line `k` |
| Lines.OnItsLine | src/buffer/internal.rs:652-698 | the line that counting newlines gives for a character starts at or before it and ends behind it |
| Lines.NewlinesBefore | src/buffer/internal.rs:652-667 | a partition point of the index by character offset is the number of newlines before it |
| Lines.IndexHoldsNewlines | src/buffer/internal.rs:219-257 | entry `k` of the index is newline `k` of the text, on either side of the gap |
| Slices.ShowsPart | src/buffer/internal.rs:1205-1224 | raw offsets on one side of the gap give a slice of exactly the requested text |
| Slices.ShowsAcross | src/buffer/internal.rs:1205-1224 | raw offsets around the gap give a slice of exactly the requested text, cut between characters |
| Slices.CharInSlice | src/buffer/internal.rs:1326-1332 | the character at a cursor lies whole in the half that cur_and_data picks |
| Slices.CharEndingInSlice | src/buffer/internal.rs:1447-1475 | the same for the character that ends in front of a cursor |
| Slices.CountChars | src/buffer/internal.rs:41-58 | counting decoded characters gives the length of the text |
| Slices.Chars.Next | src/buffer/internal.rs:1399-1415 | each step yields the next character of the text, and nothing at its end |
| Slices.IdxChars.Next | src/buffer/internal.rs:1418-1475 | each step yields the next or the previous character with its index |
| Slices.Drain | src/buffer/internal.rs:1294-1324 | a whole iteration yields the text with its indices, or exactly its reverse, also when the slice spans the gap |
| Slices.ToString | src/buffer/internal.rs:1335-1346 | the string of a slice is the text that it shows |
| GapBuffers.GapBuffer.From | src/buffer/internal.rs:142-166 | a new buffer is coherent and holds the given text |
| GapBuffers.GapBuffer.MoveGapTo | src/buffer/internal.rs:916-963 | no text changes; bytes, index and cache agree with the text afterwards |
| GapBuffers.GapBuffer.GrowGap | src/buffer/internal.rs:878-914 | no text changes; the gap keeps at least `MIN_GAP` bytes, which the index shift relies on |
| GapBuffers.GapBuffer.AddLineEndings | src/buffer/internal.rs:828-841 | the index becomes that of the text with the inserted part |
| GapBuffers.GapBuffer.RemoveLineEndings | src/buffer/internal.rs:843-876 | the index becomes that of the text without the removed part |
| GapBuffers.GapBuffer.InsertChar | src/buffer/internal.rs:718-742 | the text becomes the splice with one character; everything derived agrees with it |
| GapBuffers.GapBuffer.InsertStr | src/buffer/internal.rs:745-771 | the text becomes the splice with a string; everything derived agrees with it |
| GapBuffers.GapBuffer.RemoveChar | src/buffer/internal.rs:774-796 | the text loses exactly one character; everything derived agrees with it |
| GapBuffers.GapBuffer.RemoveRange | src/buffer/internal.rs:799-826 | the text loses exactly a range of characters; everything derived agrees with it |
| GapBuffers.GapBuffer.MakeContiguous | src/buffer/internal.rs:286-290 | the text stays and its bytes are those behind the gap |
| GapBuffers.GapBuffer.Clear | src/buffer/internal.rs:445-453 | the text becomes empty; the cache is coherent exactly when the gap was not at the start or the cache was empty |
| GapBuffers.StaleCache | src/buffer/internal.rs:445-453 | a buffer that is made from any text, asked for any offset and cleared has a cache that is not coherent; the entry of a character lies inside the gap, on which raw_byte_to_byte underflows |
| GapBuffers.GapBuffer.OffsetCharToRawByte | src/buffer/internal.rs:1067-1150 | newline search, backward decoding and stepping over the gap give the raw byte that walking from the start gives, and the cache stays right |
| GapBuffers.GapBuffer.CharToByte | src/buffer/internal.rs:1014-1016 | a character index becomes the byte length of the text before it |
| GapBuffers.GapBuffer.CharRangeToByteRange | src/buffer/internal.rs:1019-1024 | the same for both ends of a range |
| GapBuffers.GapBuffer.ByteToChar | src/buffer/internal.rs:974-1007 | on the byte offset of character `c` it gives `c`; on one inside `c` the next newline or the end, and on one behind the text its length |
| GapBuffers.GapBuffer.CharsInRawRange | src/buffer/internal.rs:625-635 | the number of characters between two raw offsets |
| GapBuffers.GapBuffer.CharAt | src/buffer/internal.rs:460-465 | the character at an index of the text |
| GapBuffers.GapBuffer.LenLines | src/buffer/internal.rs:398-413 | the number of newlines plus one |
| GapBuffers.GapBuffer.Line | src/buffer/internal.rs:510-538 | a slice of exactly line `lineIdx` |
| GapBuffers.GapBuffer.LineLenChars | src/buffer/internal.rs:555-580 | the number of characters of a line |
| GapBuffers.GapBuffer.TryLineToChar | src/buffer/internal.rs:687-698 | where a line starts, or nothing behind the last line |
| GapBuffers.GapBuffer.TryCharToLine | src/buffer/internal.rs:652-667 | the number of newlines before a character, or nothing behind the end |
| GapBuffers.GapBuffer.LineToByte | src/buffer/internal.rs:704-713 | the byte offset at which a line starts |
| GapBuffers.GapBuffer.SliceOf | src/buffer/internal.rs:610-618 | a slice of exactly the characters asked for |
| GapBuffers.GapBuffer.SliceFromByteOffsets | src/buffer/internal.rs:598-607 | a slice of exactly the characters between two byte offsets |
| Lsp.LspPosition | src/lsp/capabilities.rs:126-148 | the position of a column is the length of the line before it in the units of the encoding, cut to 32 bits |
| Lsp.ParseLspPosition | src/lsp/capabilities.rs:78-116 | the column is the one that the position determines; a byte position behind its line counts on into the next ones; positions behind the last line are clamped |
| Lsp.ColumnInverts | src/lsp/capabilities.rs:78-148 | a position determines its column, and it is the column that it was made from |
| Lsp.PositionRoundTrip | src/lsp/capabilities.rs:78-148 | reading a position back gives the line and column, for each encoding and any gap, as long as 32 bits hold it |
| Lsp.Utf16RoundTrip | src/lsp/capabilities.rs:86-142 | the lengths that are added up are those of the UTF-16 encoding with surrogate pairs, which can be read back |
| RegexTransform.ReverseInvolution | src/regex/ast.rs:116-133 | reversing an expression twice gives it back |
| RegexTransform.ReverseKeeps | src/regex/ast.rs:116-133 | reversing keeps the number of instructions, and greediness and groups where they are |
| RegexTransform.ReverseLanguage | src/regex/ast.rs:116-133 | in any text read backwards, the reversed expression matches exactly the mirrored parts; line starts, line ends and word boundaries are what the characters around a position say |
| RegexTransform.ReverseMirrored | src/regex/ast.rs:116-133 | the same for any two inputs of which one mirrors the other, line starts being the line ends of the other |
| RegexTransform.CompressCats | src/regex/ast.rs:261-286 | the loop ends; no nested concatenation is left; the language is the same |
| RegexTransform.UnpackedLanguage | src/regex/ast.rs:261-286 | unpacking a concatenation inside another keeps what they match |
| RegexTransform.ApplyCounted | src/regex/ast.rs:491-511 | it underflows exactly for `m < n`, and for a lower bound of zero that no pattern gives; else the result matches the earlier nodes and then an allowed number of copies |
| RegexParser.Pattern.TryParseCounted | src/regex/ast.rs:687-727 | every branch, error and stopping position of a counted repetition, with escapes looked up by their low byte |
| RegexParser.CountedRead | src/regex/ast.rs:687-744 | each count in its usual notation, with positive bounds that fit a machine word, is read back |
| RegexParser.CountsRead | src/regex/ast.rs:687-727 | no other count is read from any pattern |
| RegexParser.CountedExactly | src/regex/ast.rs:687-744 | a count is read, up to its end, exactly if it is spelled with digits, a comma and a brace, which may be escaped |
| RegexParser.CountedErrors | src/regex/ast.rs:687-744 | what is no count is an invalid repetition, or has a bad escape that is reported where it stands |
| RegexParser.Pattern.CountedRepetition | src/regex/ast.rs:566 | a repetition that is read and applied underflows exactly if it has two bounds and the second is smaller; else its language is the counted one |
| RegexTransform.ExpansionLanguage | src/regex/ast.rs:491-511 | the expansion of a count matches exactly the allowed numbers of matches of its operand |
| RegexTransform.ReplacementSound | src/regex/ast.rs:321-369 | replacing a class by a common one, which happens to all that have its parts, keeps its characters exactly when it is not negated and has no range outside the word characters |
| RegexTransform.NegatedReplacement | src/regex/ast.rs:321-369 | a negated class that is replaced matches a newline as well, and nothing else changes exactly if it has no range outside the word characters |
| RegexTransform.OptimiseAst | src/regex/ast.rs:135-146 | the loop ends and rewrites the root alone: a class there, or the concatenations in a concatenation |
| RegexTransform.OptimisedLanguage | src/regex/ast.rs:135-146 | it keeps the language exactly if a class at the root is replaced by an equal one |
| RegexTransform.OptimisedReverse | src/regex/vm.rs:242-249 | optimising and reversing can change places |
| RegexVm.Decompose | src/regex/compile.rs:61-184 | a run through a part of the code splits into a run of the part and the rest |
| RegexVm.RunsForget | src/regex/compile.rs:92-125 | recording submatches does not change what an expression matches |
| RegexVm.GroupExtent | src/regex/compile.rs:92-125 | a matched group has its start and end in its two slots in both directions |
| RegexCompile.CodeLen | src/regex/ast.rs:103-114 | the compiled code is exactly as long as op_len says |
| RegexCompile.IntoOps | src/regex/compile.rs:169-184 | the pushed instructions, the counter and the names are those of the expression at its offset |
| RegexCompile.AltOps | src/regex/compile.rs:61-79 | the same for alternatives, with the jump out of each branch patched in |
| RegexCompile.ConcatOps | src/regex/compile.rs:81-90 | the same for concatenations |
| RegexCompile.SubmatchOps | src/regex/compile.rs:92-125 | the same for groups, with their slots |
| RegexCompile.RepOps | src/regex/compile.rs:127-165 | the same for repetitions, greedy or lazy |
| RegexCompile.PreferredTarget | src/regex/compile.rs:127-165 | the first target of a greedy repetition enters its operand and the second leaves it; of a lazy one it is the other way round |
| RegexCompile.PreferredBranch | src/regex/compile.rs:61-79 | the first target of an alternation enters its first branch and the second the others |
| RegexCompile.CompiledCorrectly | src/regex/compile.rs:61-184 | code at any offset goes from its entry to its exit over exactly the texts that the expression matches, recording exactly its submatches |
| RegexProgram.ShiftCode | src/regex/compile.rs:231-237 | moving all targets gives the code of the same expression compiled at the moved offset |
| RegexProgram.CompileAst | src/regex/compile.rs:201-244 | the program is the prefix, the code at offset 4 and the suffix, of the reversed expression if asked |
| RegexProgram.CodeIsGood | src/regex/compile.rs:61-184 | every jump and split in the code of an expression stays in it or goes to its exit |
| RegexProgram.ProgramShape | src/regex/compile.rs:201-244 | all targets of a program are in range, Match is only at the end, and a jump goes forwards or to something that is no jump |
| RegexProgram.ProgramCorrect | src/regex/compile.rs:201-244 | a program accepts exactly the matches that begin at or behind the start of the search, with their submatches |
| RegexProgram.SpanCorrect | src/regex/compile.rs:201-244 | the spans that a program finds are exactly those that the expression matches |
| RegexProgram.ReverseSpanCorrect | src/regex/vm.rs:242-260 | a reversed program run over a text read backwards finds exactly the mirrored spans of what the expression matches in the text |
| RegexOptimise.InlineJumps | src/regex/compile.rs:268-295 | one rewrite in place; it tells whether it changed anything |
| RegexOptimise.InliningSound | src/regex/compile.rs:268-295 | one rewrite keeps what the program accepts from every state, with all captures |
| RegexOptimise.NothingToInline | src/regex/compile.rs:268-295 | nothing is left to rewrite exactly if no jump leads to a jump, a split or the match, and no split to a jump or twice to the match |
| RegexOptimise.InliningShrinks | src/regex/compile.rs:268-295 | every rewrite makes jumps, splits or the lengths of jump chains fewer, in this order |
| RegexOptimise.AllInlinedSound | src/regex/compile.rs:246-256 | what rounds of rewrites come to has nothing left to inline and the same language |
| RegexOptimise.InlineAll | src/regex/compile.rs:246-256 | the loop ends with that program |
| RegexStrip.RemoveInstruction | src/regex/compile.rs:324-341 | the loop over the table lowers one target of an instruction for each of its entries, in order, and moves the entries behind the removed instruction up |
| RegexStrip.SweptIs | src/regex/compile.rs:324-333 | a sweep lowers every instruction as often as it has entries with a target behind the removed one; it underflows exactly if a jump has more of them than its target allows |
| RegexStrip.HitsAre | src/regex/compile.rs:324-341 | when an instruction is removed, every other one has an entry for each of its targets behind it, and more exactly if removed neighbours in front of it had such targets |
| RegexStrip.OneRemoval | src/regex/compile.rs:324-333 | a removal leaves right targets right exactly under the condition for its branch; targets that are too low stay too low, or one underflows |
| RegexStrip.StrippedRightly | src/regex/compile.rs:300-343 | for every program: the pass leaves the instructions that are led to, all targets readdressed and none underflowing, exactly if at every removal `i` no kept split with a first target behind `i`, other than the next that stays, has its second target behind `i` too or inherits an entry, no second target like that belongs to a split that inherits one, and no kept jump inherits one |
| RegexStrip.StripUnreachable | src/regex/compile.rs:300-343 | the loop of the pass meets that condition in both directions |
| RegexStrip.CutKeepsLanguage | src/regex/compile.rs:297-299 | without the instructions that nothing leads to, a program accepts the same from every other one, with all captures |
| RegexStrip.StrippingKeepsLanguage | src/regex/compile.rs:300-343 | under the condition stripping keeps what is accepted from every instruction that stays |
| RegexStrip.Optimise | src/regex/compile.rs:246-260 | a search finds the same spans after inlining, and after stripping too under the condition |
| RegexStrip.CompileOptimised | src/regex/compile.rs:201-260 | from the syntax tree to the inlined program: a search finds exactly the spans that the expression matches; under the condition so it does after stripping |
| RegexStrip.Compile | src/regex/vm.rs:74-93 | behind the parser, forwards or reversed: the inlined program finds exactly the matches of the expression that was parsed exactly if a class at its root is replaced by an equal one; then the stripped one does under the condition |
| RegexStrip.StrippingChangesLanguage | src/regex/compile.rs:246-343 | the alternation of `a+` and `bc?d`, compiled, inlined and stripped, finds a match in "b", where the expression has none |
| RegexStrip.InheritedEntriesChangeLanguage | src/regex/compile.rs:201-343 | the program of `(?:(?:(?:a*)*)*)+`, inlined, finds a match at every start, and no match in any text once it is stripped; no kept split has both targets behind what is removed |
| EditLogs.InverseTakesBack | src/buffer/edit.rs:60-67 | the inverse of an edit that fits a text takes it back, and fits what the edit made |
| EditLogs.InversesTakeBack | src/buffer/edit.rs:160-170 | the inverses of a transaction, last first, lead back to where it began |
| EditLogs.TryCombine | src/buffer/edit.rs:79-130 | two edits become one in the cases that the guards allow, with byte lengths compared with character indices |
| EditLogs.CombinesRightly | src/buffer/edit.rs:79-130 | the combined edit does what both did, on every text, exactly when the guard did not take a byte length for a different character length |
| EditLogs.MisjudgedInsertions | src/buffer/edit.rs:92-109 | a text on which misjudged insertions are combined wrongly |
| EditLogs.MisjudgedDeletions | src/buffer/edit.rs:111-130 | a text on which misjudged deletions are combined wrongly |
| EditLogs.AsciiNotMisjudged | src/buffer/edit.rs:92-130 | edits of one-byte characters are never misjudged |
| EditLogs.CombinedIfTouching | src/buffer/edit.rs:94-133 | edits of one-byte characters are combined exactly if they are of one kind and the second continues the first at its start or end |
| EditLogs.GuardedInBytes | src/buffer/edit.rs:92-130 | a string with a character of several bytes is not combined with what follows it, but with what is its length in bytes behind it |
| EditLogs.TypedTogether | src/buffer/edit.rs:160-191 | one-byte characters typed one after the other in a new transaction are one edit of the log |
| EditLogs.TakenOutTogether | src/buffer/edit.rs:160-191 | characters deleted one after the other in front of the cursor are one edit |
| EditLogs.ErasedTogether | src/buffer/edit.rs:160-191 | characters deleted one after the other behind the cursor are one edit |
| EditLogs.EditLog.Push | src/buffer/edit.rs:239-259 | the last transaction is extended, undone transactions are dropped |
| EditLogs.EditLog.Undo | src/buffer/edit.rs:160-170 | empty transactions are dropped, the last other one moves to the undone ones, and its inverses are returned |
| EditLogs.EditLog.Redo | src/buffer/edit.rs:172-181 | the transaction that was undone last comes back, or, if that is empty, one that was not undone |
| EditLogs.UndoneNeverEmpty | src/buffer/edit.rs:160-181 | however a log is used, no undone transaction is empty, so a redo never falls back on the others |
| History.NormalisedLength | src/util.rs:75-83 | normalising line endings shortens a string exactly if it has a carriage return before a newline |
| History.NormalisedCrLf | src/util.rs:75-83 | the first carriage return with its newline becomes one newline; what is around it is normalised as it is alone |
| History.NormalisedCr | src/util.rs:75-83 | the first carriage return without a newline becomes a newline |
| History.ReplayedFitting | src/buffer/mod.rs:1098-1119 | replaying an edit that fits makes exactly its change |
| History.ReplayedNothing | src/buffer/mod.rs:1102-1115 | replaying a deletion of nothing leaves only the empty text as it is |
| History.CursorTakenBack | src/buffer/mod.rs:1062-1119 | undoing one insertion leaves the cursor where it began, and undoing one deletion behind the restored text |
| History.StepKeeps | src/buffer/edit.rs:160-259 | every edit that fits and is not misjudged, every new transaction, undo and redo keeps the log faithful: it replays to the current text, and the undone edits fit it |
| History.RunKeeps | src/buffer/edit.rs:160-259 | over every run the log replays from the first text to the current one |
| History.TransactionUndone | src/buffer/edit.rs:160-259 | after a new transaction is begun and any edits that fit and are not misjudged are made, one undo gives exactly the text at its beginning, and one redo the edited text again |
| History.UndosThenRedos | src/buffer/mod.rs:1062-1096 | `n` undos and then `n` redos come to just the redos left over when there are fewer than `n` transactions |
| History.UndosThenRedosRestore | src/buffer/mod.rs:1062-1096 | with enough transactions they restore the text and the log |
| History.RedosThenUndos | src/buffer/mod.rs:1062-1096 | `n` redos and then `n` undos come to just the undos left over |
| Buffers.Buffer.DeleteRange | src/buffer/mod.rs:1302-1320 | the range, inclusive and clamped, leaves the text and is recorded, and is returned if longer than one character |
| Buffers.Buffer.DeleteCur | src/buffer/mod.rs:1284-1300 | the character at a cursor leaves the text and is recorded; at the end nothing happens |
| Buffers.Buffer.InsertChar | src/buffer/mod.rs:1153-1193 | the selection is replaced by the character, a carriage return by a newline, and both changes are recorded |
| Buffers.CharTypedNormalised | src/buffer/mod.rs:1153-1193 | a typed character becomes what a string of it is normalised to |
| Buffers.Buffer.InsertString | src/buffer/mod.rs:1195-1253 | the selection is replaced by the normalised string; an empty one is not recorded |
| Buffers.Buffer.ApplyEdit | src/buffer/mod.rs:1098-1119 | the text changes as replaying says, the paused log stays as it is, and dot ends behind what is inserted or where something is deleted |
| Buffers.Buffer.Undo | src/buffer/mod.rs:1062-1078 | text and log move as one undo of the state machine, and dot goes where the last replayed edit puts it |
| Buffers.Buffer.Redo | src/buffer/mod.rs:1080-1096 | text and log move as one redo of the state machine, and dot goes where the last replayed edit puts it |
| Buffers.Buffer.HandleInsertString | src/buffer/mod.rs:900-906 | dot ends behind the inserted text and xdot is clamped |
| Buffers.CutKeeps | src/buffer/mod.rs:1302-1320 | after a selection is deleted the log is faithful exactly if it does not begin at the end of the text, or the last edit of the running transaction is a deletion there; no edit may be misjudged |
| Buffers.InsertionKeeps | src/buffer/mod.rs:1153-1253 | the same for an insertion at a cursor or selection |
| Buffers.DeletionKeeps | src/buffer/mod.rs:1255-1320 | the same for a deletion of a selection or of the character at a cursor |
| Buffers.DeletionTakesContent | src/buffer/mod.rs:1255-1320 | a deletion takes out exactly the text that dot selects, which is what the clipboard gets |
| Buffers.DeletionAtEnd | src/buffer/mod.rs:1062-1119 | deleting a range at the end of the text, undone and redone, leaves the text as it is exactly if the last edit was a deletion there or the text is empty |
| Buffers.ReplacementAtEnd | src/buffer/mod.rs:1062-1119 | replacing such a range can be undone, and redone exactly in the same cases; then it comes to the same text |
| Buffers.OperationKeeps | src/buffer/mod.rs:1062-1320 | an insertion, deletion, new transaction, undo or redo whose edits are not misjudged keeps the log faithful exactly if it logs no empty deletion; undo and redo are always possible |
| Buffers.OperationsReplay | src/buffer/mod.rs:1062-1320 | over every run of such operations the log replays from the first text to the current one, and undos and as many redos restore it |
| Buffers.Buffer.HandleAction | src/buffer/mod.rs:884-929 | each action that edits makes the deletion, insertion, undo or redo that it names, at dot or xdot |
| Buffers.Buffer.InsertXdot | src/buffer/mod.rs:1343-1380 | the string goes to xdot, and dot moves by the branches of the source; if xdot does not meet dot, and is behind it or normalising does not shorten the string, dot selects the same text as before |
| Buffers.XdotKeepsContent | src/buffer/mod.rs:1343-1380 | an xdot that does not meet dot leaves the text that dot selects as it is, if normalising does not shorten the string |
| Buffers.XdotMovesRightly | src/buffer/mod.rs:1362-1371 | behind xdot, dot moves by as much as the text grows exactly if the string has no carriage return before a newline |
| Buffers.XdotMeetsDot | src/buffer/mod.rs:1343-1380 | a dot that xdot meets becomes a cursor, in front of the inserted string if xdot begins inside dot and reaches its end, else behind the string |
| Buffers.FromCursors | src/dot/range.rs:40-54 | the ends are in order and the active one stays active |
| Tries.Insert | src/trie.rs:312-351 | it succeeds exactly when there is room; then the key has its value, its prefixes are partial, and all else answers as before |
| Tries.FreeMeans | src/trie.rs:312-351 | there is room for a key exactly when it is neither equal to, nor a prefix of, nor an extension of a key |
| Tries.Flattener.Flatten | src/trie.rs:353-403 | the arrays, child ranges patched in, hold the forest in sorted order |
| Tries.PatchStep | src/trie.rs:385-400 | patching one child range leaves all other siblings and their subtrees in place |
| Tries.HoldsKept | src/trie.rs:353-403 | what the arrays hold stays held while they grow and earlier nodes are patched |
| Tries.TryFromIter | src/trie.rs:59-78 | it succeeds exactly when no key is equal to or a prefix of another; the trie holds the keys with their values |
| Tries.Get | src/trie.rs:143-187 | the value exactly on keys, partial exactly on proper prefixes of keys, else missing |
| Tries.ExtractPairs | src/trie.rs:121-136 | exactly the pairs below a range of nodes, each once |
| Tries.Merge | src/trie.rs:85-97 | it succeeds exactly when no keys of the two are related; the result holds both |
| Tries.MergeOverriding | src/trie.rs:104-119 | it succeeds exactly when no different keys are related; the result answers as the union with the second winning |
| Exec.Apply | src/exec/mod.rs:422-448 | an action makes its change to the text and reports what the source reports |
| Exec.AsDot | src/exec/mod.rs:403-420 | the dot of an action; nothing where the subtraction underflows |
| Exec.AppliedStep | src/exec/mod.rs:252-261 | an action means the same once those behind it are applied, and applying it gives the next step |
| Exec.ApplyActions | src/exec/mod.rs:244-278 | actions in order that do not overlap, applied last to first, come to all changes at the same time |
| Exec.DotSpansInsertion | src/exec/mod.rs:244-278 | the dot spans the text of the last insertion exactly if every earlier replacement removes one-byte characters only |
| Exec.DotAtRemoval | src/exec/mod.rs:244-278 | after a last removal dot is where the text was exactly if every earlier replacement removes one-byte characters only, or its start is negative and that is the end of the text |
| Exec.DotOfNothing | src/exec/mod.rs:403-420 | the dot of an action underflows exactly if it inserts nothing at the start and is no removal |
| Exec.DotUnmoved | src/exec/mod.rs:244-278 | without actions the dot stays |
| Decimals.ValueOfDecimal | src/exec/addr.rs:338-352 | a printed number has its value |
| Addresses.Parser.TryParseNum | src/exec/addr.rs:338-352 | the longest run of digits is read; it is an error if it does not fit a machine word |
| Addresses.Parser.ParseDelimitedRegex | src/exec/addr.rs:354-382 | a pattern goes up to the first slash that no backslash precedes |
| Addresses.Parser.ParseBase | src/exec/addr.rs:238-336 | every branch and error of one address |
| Addresses.Parser.ParseSimple | src/exec/addr.rs:220-236 | one address and its suffixes |
| Addresses.Parser.Parse | src/exec/addr.rs:181-214 | simple and compound addresses with their defaults |
| Addresses.ParsedSimple | src/exec/addr.rs:181-192 | the text of an address, at the end or before a blank, is read as that address |
| Addresses.ParsedCompound | src/exec/addr.rs:192-214 | two addresses around a comma are read as a compound one; a missing first one is the start of the file and a missing second one its end |
| Addresses.ParsedErrors | src/exec/addr.rs:181-336 | no text has an invalid suffix, and only the empty one ends too early |
| Addresses.PatternErrors | src/exec/addr.rs:354-382 | a pattern without its closing slash, or one that does not compile, is that error |
| Addresses.LineErrors | src/exec/addr.rs:295-352 | a column of zero, none, one that is no number, and a line that does not fit a machine word are the errors of the source |
| Addresses.OtherErrors | src/exec/addr.rs:181-336 | what begins no address, an offset without digits and a column behind a relative line are no address |
| Addresses.SignError | src/exec/addr.rs:238-290 | a sign in front of what cannot be relative is no address |
| Addresses.TrailingError | src/exec/addr.rs:192-214 | so is an address with anything behind it but a blank, a comma or a part of it |
| Addresses.BaseRead | src/exec/addr.rs:238-336 | each documented spelling of an address, with either sign of an offset, is read as that address, except `-` and `+` in front of the other sign, which are the current line |
| Addresses.ParsedIs | src/exec/addr.rs:181-336 | whatever is parsed has offsets of lines other than zero, patterns without bare slashes, and neither `-` in front of `+` or a forward pattern nor the reverse |
| Addresses.ParsedPrinted | src/exec/addr.rs:181-382 | an address is parsed from some text exactly if it is parsed from the text that the model gives it, and exactly if it is of that form |
| Addresses.AsYx | src/dot/cur.rs:29-34 | line and column of a character |
| Addresses.MapLineAndColumn | src/exec/addr.rs:462-465 | the character at a line and column, or nothing |
| Addresses.DotRoundTrip | src/dot/cur.rs:24-34 | printing a dot, parsing it and looking it up in the same text leads to the same positions |
| ZipLists.ZipList.FocusUp | src/ziplist.rs:416-439 | no element moves and the focus goes up by one, cyclically |
| ZipLists.ZipList.FocusDown | src/ziplist.rs:443-466 | no element moves and the focus goes down by one, cyclically |
| ZipLists.ZipList.FocusElementBy | src/ziplist.rs:472-484 | the first match from the focus down and around gets the focus; without one the list is exactly as it was |
| ZipLists.ZipList.RotateUp | src/ziplist.rs:530-538 | a cyclic shift of the elements; the focus stays with its element |
| ZipLists.ZipList.RotateDown | src/ziplist.rs:542-550 | the opposite shift |
| ZipLists.ShiftsInverse | src/ziplist.rs:530-550 | the two shifts are inverse |
| ZipLists.ZipList.RotateBoth | src/ziplist.rs:530-550 | rotating up and down, in either order, restores every field |
| ZipLists.ZipList.Extract | src/ziplist.rs:556-593 | the elements are split into those that stay and those that are taken, both in order; the focus stays or goes to the first one below that stays, or else to the nearest above |
| ZipLists.ExtractsOthers | src/ziplist.rs:554-593 | what is taken is never what satisfies the predicate, as the comment has it |
| ZipLists.ZipList.At | src/ziplist.rs:632-644 | indexing counts the elements in their order |

## Left out

- GapBuffers.GapBuffer: capacities and offsets are unbounded; overflow of `usize` is not modelled.
- GapBuffers.GapBuffer.CharAt: `char_at` by byte offset is not modelled; at the start of the gap it would decode gap bytes (src/buffer/internal.rs:482-487, 1037-1043).
- GapBuffers.GapBuffer.MoveGapTo: the gap goes between two characters, as every caller in the source asks; that it may also go inside one, with neither side of it whole text, is not modelled.
- Slices: `subslice_from_byte_offsets`, which does not subtract the length of the left half (src/buffer/internal.rs:1226-1253), is not part of this model.
- Slices.ToString: decodes character by character; the source joins the bytes and checks them as a whole.
- Slices.IdxChars: stands for `RevChars` too, which runs backwards and has no index.
- LineIndex.BinarySearchByChar: the partition point and binary search of the standard library are given by what they find.
- Lsp.ParseLspPosition: a byte position inside a character or behind the text, on which the source reads out of bounds of a slice and panics (src/buffer/internal.rs:41-57, 625-632), is excluded.
- Lsp: the requests, replies and messages around the positions.
- RegexVm: the machine is the meaning of its instructions, which may take either branch of a split; thread priorities, so the choice between several matches, thread lists and capture reference counts of src/regex/vm.rs are not modelled.
- RegexVm.Steps: an assertion is checked where it stands, against the two characters next to that position; `char::is_alphanumeric` is a parameter. The source checks it at the next comparison or save, a word boundary on both sides of the character there (src/regex/ast.rs:393-415), and a later assertion before that replaces it (src/regex/vm.rs:469-560).
- RegexAst: the parser of expressions but for counted repetitions; `leading_literals`, which leaves out the empty prefix of a nullable head (src/regex/ast.rs:38-42, 839), and so no search that relies on it.
- EditLogs: the printed form of edits.
- Buffers.Buffer: syntax state, input filters, notifications, the dirty flag and file handling; paths that replace the whole text; actions other than editing, undo, redo and insertion at xdot. Directory listings are not normalised and may hold carriage returns.
- Buffers.InsertionKeeps: is about edits at positions within the text; text objects and searches that set dot are not modelled.
- Tries: key elements are integers instead of any ordered type; the standard sort is an insertion sort by key; `BTreeMap` is a map whose entries come in some order.
- Tries.TryFromIter: an empty key, on which the source panics, is excluded.
- Exec: gathering of actions by structural regular expressions, templates, commands and streams; the edits are made on a gap buffer, the case of an editor buffer adds the log of `Buffers`.
- Exec.ApplyActions: the sum of the reported changes is required to fit a machine word.
- Addresses.Negated: a build that checks arithmetic panics where negating the least `isize` wraps around.
- Addresses: positions are counted in characters instead of bytes, and error spans are left out; whether a pattern compiles is a parameter. Of the lookup only lines with columns are modelled, not lines, relative addresses or searches.
- Addresses.DotRoundTrip: the end of a range is active afterwards, whichever was before.
- ZipLists: insertion, removal, swaps and mapping.
- The terminal, windows, event loop, file server, language server client, configuration, jump list, text search and text objects.
