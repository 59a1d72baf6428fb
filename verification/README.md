# GNU Readline 6.2: a verified model

The library that reads, edits, recalls and completes command lines, in the copy kept under `readline-6.2/`, modelled in
its single-byte configuration and emacs mode. Each module models one part of it, in the form of the C code: where the
code changes arrays, buffers and globals step by step there is a class or a method with loops, and beside it the
functions that say what the result means, and the lemmas about them.

| module | part of the library |
|---|---|
| `Keymaps` | keymaps as a trie; binding a key sequence, looking one up |
| `Dispatch`, `LongestPrefix`, `Losses`, `KeyReader` | the recursive dispatcher and which binding it runs, the dispatcher of the callback interface with its chain of contexts, and when they do the same |
| `Undo`, `Edits`, `LineEditor`, `HistoryLines` | the undo log, the editing operations, the line buffer at work, and taking back the edits of all history lines |
| `Kill`, `KillRing` | kill commands, the kill ring, yanking and popping |
| `Terminal`, `Display` | a terminal, and bringing one of its rows up to date |
| `Rendering`, `Layout`, `Redisplay` | what characters look like, breaking the line into rows, and showing the rows and the cursor |
| `Tokenizer`, `Quoting`, `Subst` | history words, the two quoting printers, and the substitution modifiers |
| `KeySeq` | the notation of key sequences, read and printed |
| `HistoryStore`, `HistoryFile`, `HistoryRange`, `Searching` | the history list, its file, reading a range of the file, and searching the list |
| `Completion` | duplicates and the common prefix of the possible completions |
| `InputRing` | the ring of typed-ahead keys |
| `Options`, `Characters`, `Text` | a value that may be absent; characters of the C locale; reading and filling buffers with a known text |

What the main results say:

- **Keys.** Binding a sequence is an update of the map from sequences to effective bindings, and changes no other one,
  except that a shadowed `rl_do_lowercase_version` is dropped. Dispatching runs the binding of the longest bound prefix
  and puts back exactly the keys behind it, as they are looked up, if and only if the walk does not forget a binding at an
  upper-case redirection. The callback dispatcher does the same as the recursion for one command exactly when the walk
  does not lose a shadowed binding; it runs the same commands for every stream of keys exactly when the keymaps let no
  binding be lost, which can be read off the keymaps alone.
- **Editing.** Whatever runs of insertions, deletions, replacements, case changes, transpositions and undos happen, taking
  a record back gives the text from when it was logged, coalesced insertions and nested groups included. When all groups
  begun were ended, one undo takes back one edit or one whole group. Killing loses nothing: one yank after any run of
  kill commands restores the line.
- **Screen.** For every old and new row, every set of capabilities and every place of the cursor, wrapping around
  included, updating a row leaves the new text on the terminal and the record of the cursor right. The layout loop cuts
  the line into rows none of which is wider than the screen. Together: after any sequence of redisplays each row of the
  screen shows its row of the prompt and the line, the rows below are blank, and the cursor is where the text before
  point ends.
- **Text of the history.** Splitting a line partitions it; quoted text is one word whatever it contains; global
  substitution exchanges the leftmost occurrences and never looks at what it put in; the file of the history gives the
  lines back exactly if each of them fits on a line of its own; a search selects the count-th line that is new.
- **Key notation.** What is printed is read back exactly if no character is misread behind a file separator (0x1c).

Where the code and its comments differ, the model follows the code:

- `read_history_range` says that an end before the start means the end of the file. Only a negative end does; any other
  one reads one line (`HistoryRange.RangeWithoutTimes`, `HistoryRange.EndBeforeStart`). In a file with times, passing
  over entries is right exactly if the first entry and the one reading starts at have no time; otherwise reading starts
  one entry early or an entry loses its time (`HistoryRange.SkipLosesTime`).
- Behind an upper-case redirection the dispatcher starts anew and forgets the bindings it has passed, so that a bound
  prefix need not run (`LongestPrefix.RedirectForgets`); and what it puts back is the lower-case key
  (`LongestPrefix.PutBackAsTyped`).
- `rl_generic_bind` keeps a shadowed function in ANYOTHERKEY, but not `rl_do_lowercase_version` (`Keymaps.Dropped`,
  `Keymaps.RedirectDropped`).
- `rl_kill_full_line` moves point to the start before it kills, so that a yank after earlier kills need not restore the
  line (`Kill.FullLineConserves`, `Kill.FullLineSwapsText`).
- A region kill of no text, and killing a full line that is empty, count as kills. The next kill then extends an older
  slot, so that a yank does not restore the line unless that slot is empty (`Kill.EmptyKillRestores`); and on an empty
  ring there is no slot, and the next kill reads before the start of the ring (`Kill.EmptyKillConserves`).
- `_rl_untranslate_macro_value` doubles the backslash of `\C-\`, which `rl_translate_keyseq` does not expect
  (`KeySeq.FSIsLost`).

## Model

| member | source | states |
|---|---|---|
| Keymaps.ReachLast | readline-6.2/bind.c:708-752 | a sequence leads to a keymap exactly if its entry is one, and then to that keymap |
| Keymaps.OffTrie | readline-6.2/bind.c:708-752 | a sequence that has left the trie is unbound and leads nowhere, however it goes on |
| Keymaps.UniquePath | readline-6.2/bind.c:360-397 | in a keymap tree only one key sequence leads to a given keymap |
| Keymaps.DescendBinding | readline-6.2/bind.c:364-397 | putting a fresh submap in the place of an entry keeps the effective binding of every sequence, but for a shadowed rl_do_lowercase_version |
| Keymaps.WriteEntry | readline-6.2/bind.c:398-432 | overwriting an entry that is no keymap changes the binding of that sequence and of no other |
| Keymaps.WriteShadow | readline-6.2/bind.c:418-427 | overwriting ANYOTHERKEY of a submap changes the binding of the sequence that leads to it and of no other |
| Keymaps.RedirectDropped | readline-6.2/bind.c:384-402 | a keymap and a sequence whose binding loses the redirection it passes over |
| Keymaps.KeymapTable.MakeBareKeymap | readline-6.2/keymaps.c:56-78 | the new keymap is bare and no other keymap changes |
| Keymaps.KeymapTable.GenericBind | readline-6.2/bind.c:331-438 | binding is a map update: the bound sequence gets the data, or, if that is a null function, the function that does nothing where it led to a keymap and a null function elsewhere; every other sequence keeps its effective binding, but for a dropped rl_do_lowercase_version; the trie stays a tree |
| Keymaps.KeymapTable.FunctionOfKeyseq | readline-6.2/bind.c:695-756 | looking a sequence up gives the entry it leads to, and a null function if it leaves the trie |
| Dispatch.DispatchScans | readline-6.2/readline.c:727-951 | backing out of the recursion level by level with the codes -1, -2 and -3 comes to the same as going back to the last shadowed binding at once |
| Dispatch.DispatchIsMatch | readline-6.2/readline.c:718-951 | a top-level dispatch does what one pass of a scanner over the trie does |
| Dispatch.RedirectIsLowercase | readline-6.2/readline.c:766-768 | an upper-case letter bound to rl_do_lowercase_version comes to what typing the same letter in lower case afresh in that keymap comes to: its function or macro runs, its submap is entered, or the binding that the keymap shadows is asked for |
| Dispatch.LandsOnLowercase | readline-6.2/readline.c:766-768 | the key that is looked up is the lower-case form of the same letter at a redirection, and the key itself elsewhere |
| LongestPrefix.LongestBoundIsLongest | readline-6.2/readline.c:894-951 | the longest bound prefix is bound, and no longer one is |
| LongestPrefix.DispatchRunsLongestPrefix | readline-6.2/readline.c:727-951 | for every keymap store and every stream of keys, with the keys as they are looked up: dispatch runs the binding of the longest bound prefix and puts back exactly the keys behind it, tells a root that shadows a binding if there is none, and gives up otherwise, if and only if the walk forgets no binding at a redirection; if it forgets one nothing runs although a binding was passed |
| LongestPrefix.ScanMunches | readline-6.2/readline.c:727-951 | where no redirection is met, one pass of the scanner gives what the bindings alone say of the longest bound prefix |
| LongestPrefix.OnTrieIsLongest | readline-6.2/readline.c:727-951 | the keys that are left when nothing runs are those behind the first key that leaves the trie |
| LongestPrefix.ScanLowered | readline-6.2/readline.c:766-768 | a walk through redirections does what the walk along the lower-case keys does, unless it forgets a binding, and then it fails where the other does not |
| LongestPrefix.LoweredAt | readline-6.2/readline.c:766-768 | a key is looked up as the lower-case form of the same letter exactly if the walk meets a redirection there, and as itself otherwise |
| LongestPrefix.PutBackAsTyped | readline-6.2/readline.c:786-805 | the keys put back are the ones that were typed if and only if none of them was redirected |
| LongestPrefix.RedirectForgets | readline-6.2/readline.c:766-768 | a keymap and keys where a prefix is bound and nothing runs |
| Losses.LossyScan | readline-6.2/readline.c:832-866 | a scan that forgets the binding shadowed where it starts differs from one that does not exactly when the walk loses it |
| Losses.CleanKeeps | readline-6.2/readline.c:832-866 | over keymaps that shadow nothing at the root and behind redirections no walk loses a binding |
| Losses.LosesByKeymaps | readline-6.2/readline.c:832-866 | a walk loses a binding only if the keymaps let one be lost |
| Losses.LosingKeys | readline-6.2/readline.c:832-866 | if the keymaps let a binding be lost there are keys that lose it and end just there |
| KeyReader.SameCommand | readline-6.2/readline.c:667-712 | for one command the two dispatchers come to the same outcome if and only if the walk does not lose a shadowed binding; if it does the chain fails where the recursion does not |
| KeyReader.RedirectLosesShadow | readline-6.2/readline.c:832-866 | a keymap whose root shadows nothing where recursion and chain differ after an upper-case redirection |
| KeyReader.SameRun | readline-6.2/callback.c:165-175 | as long as no walk loses a shadowed binding the two dispatchers run the same commands for the whole stream of keys |
| KeyReader.SameSession | readline-6.2/callback.c:165-175 | the two dispatchers run the same commands for every stream of keys if and only if the keymaps let no binding be lost |
| KeyReader.SessionsDiffer | readline-6.2/callback.c:165-175 | otherwise there are keys after which the recursion has run a command and the callback dispatcher none |
| KeyReader.LosingKeysExist | readline-6.2/readline.c:832-866 | the keymaps let a binding be lost if and only if some keys lose one |
| KeyReader.CleanNeverLoses | readline-6.2/readline.c:832-866 | keymaps that shadow nothing at the root and behind redirections are such that none can be lost |
| KeyReader.UnwindLevel | readline-6.2/readline.c:894-951 | one suspended level that did not match puts its key back and hands over to the level above |
| KeyReader.ReadLevel | readline-6.2/readline.c:667-712 | reading a key for the innermost context means the same for the walk as reading it in the recursion |
| KeyReader.PushContext | readline-6.2/readline.c:832-866 | entering a submap with a new context continues the scan of the chain |
| KeyReader.Reader.ReadKey | readline-6.2/input.c:118-137 | the next pending key is taken away, or there is none |
| KeyReader.Reader.Unget | readline-6.2/input.c:143-155 | the key becomes the first pending one |
| KeyReader.Reader.Dispatch | readline-6.2/readline.c:718-725 | a dispatch has the log, the pending keys and the code of the recursive dispatcher's result, and every keymap is as before |
| KeyReader.Reader.DispatchSubseq | readline-6.2/readline.c:727-891 | the same with a shadowed binding above, whatever the key is bound to |
| KeyReader.Reader.SubseqResult | readline-6.2/readline.c:894-951 | backing out runs the shadowed binding or puts the key back and hands -2 or -1 up; the temporary rebinding for rl_insert leaves the keymaps as they were |
| KeyReader.Reader.ReadAll | readline-6.2/readline.c:478-570 | reading to the end of the input runs the commands of the session without loss, and leaves the keymaps alone |
| KeyReader.Reader.ResumeContext | readline-6.2/readline.c:667-712 | a context that learns the value of its child runs the shadowed binding and disposes of the chain, or backs out to the context above |
| KeyReader.Reader.DispatchCallback | readline-6.2/readline.c:667-712 | one call for the innermost context, and what is left of the walk afterwards for each of its codes |
| KeyReader.Reader.BackOut | readline-6.2/callback.c:165-169 | the drain loop ends idle with the command run that the chain was to come to |
| KeyReader.Reader.ContinueChain | readline-6.2/callback.c:165-175 | going on with a chain keeps the commands that the rest of the keys will run |
| KeyReader.Reader.CallbackReadChar | readline-6.2/callback.c:107-230 | one call, with as many turns as there are keys put back and leaving at once when a chain aborts, keeps the commands that are still to come |
| KeyReader.Reader.CallbackAll | readline-6.2/callback.c:107-230 | calling it to the end of the input runs exactly the commands of the session in which the root's shadow is forgotten |
| Undo.RunRestores | readline-6.2/undo.c:166-232 | over every run of operations, a record that is still in the log stands for the text from before it was logged, and taking it back gives that text |
| Undo.RunReverts | readline-6.2/undo.c:292-310 | whatever was done since the log was empty, taking every record back gives the text of that time |
| Undo.PopsOneGroup | readline-6.2/undo.c:180-228 | one undo takes back a single edit or a whole group, nested groups included, and leaves a balanced log |
| Undo.PopsOpened | readline-6.2/undo.c:180-228 | also with groups still open, one undo takes back an edit, a closed group, or the beginning of the open one |
| Undo.PopsBalance | readline-6.2/undo.c:177-231 | on every log one undo stops at the first record where as many beginnings as ends were met, and fails exactly if there is none |
| Undo.UndonePoint | readline-6.2/undo.c:190-212 | an undo leaves point where the oldest record it takes back puts it: behind text that comes back, or where text goes away |
| Undo.OpenedCloses | readline-6.2/undo.c:177-231 | a group that was ended finds its beginning |
| Undo.NeverCloses | readline-6.2/undo.c:177-231 | with one end too many, everything is taken back and the group does not close |
| Undo.UndoStep | readline-6.2/undo.c:166-232 | undoing keeps what every remaining record stands for, and the line gets the text its oldest undone record stands for |
| Undo.PushStep | readline-6.2/undo.c:91-104 | a logged record is right if reverting it on the new text gives the old one |
| Undo.AmendStep | readline-6.2/text.c:101-112 | extending the newest record keeps the log right if reverting it gives the same text as before |
| Undo.StepsCompose | readline-6.2/undo.c:253-269 | operations one after the other make one operation for the log |
| Edits.InsertedText | readline-6.2/text.c:83-117 | what was typed is at point, which goes behind it; the text before stays and the text behind moves on |
| Edits.DeletedText | readline-6.2/text.c:119-157 | the text between the bounds, as far as there is any, is gone, whichever bound comes first, and point stays |
| Edits.ReplacedText | readline-6.2/text.c:183-202 | the stretch, up to and with its last character, has given way to the text, and point is behind that |
| Edits.InsertStep | readline-6.2/text.c:83-117 | inserting keeps the log sound, whether it extends the newest record or logs a new one |
| Edits.DeleteStep | readline-6.2/text.c:119-157 | deleting keeps the log sound, for bounds in either order and behind the end |
| Edits.ReplaceStep | readline-6.2/text.c:183-202 | replacing a stretch is one group that takes the line back to the old text |
| Edits.RewriteStep | readline-6.2/undo.c:271-288 | logging the deletion and the insertion of a stretch before it is rewritten makes any rewriting undoable |
| Edits.ChangeCaseStep | readline-6.2/text.c:1282-1372 | a case change of any count of words keeps the log sound |
| Edits.ForwardWordCounts | readline-6.2/text.c:461-508 | moving over count words ends at the end of the count-th word from there, or at the end of a line that has fewer |
| Edits.BackwardWordCounts | readline-6.2/text.c:510-557 | moving back over count words ends at the start of the count-th word before, or at the start of the line if there are fewer |
| Edits.MoveWordsCounts | readline-6.2/text.c:461-557 | a negative count moves the other way, over as many words |
| Edits.WordCharacters | readline-6.2/util.c:64-77 | words are made of letters and digits |
| Edits.ChangedCaseText | readline-6.2/text.c:1268-1372 | the words that a movement by count goes over are in the case asked for, letters being exchanged for the other case of the same letter only, nothing else changes, and point goes behind the words or stays for a negative count |
| Edits.CasedUnique | readline-6.2/text.c:1309-1368 | that determines the text |
| Edits.TransposedText | readline-6.2/text.c:1414-1433 | the two words have changed places, and everything before, between and behind them is the same |
| Edits.WordsFound | readline-6.2/text.c:1377-1412 | which words are exchanged: the one that ends count words on, and the one count words before its start |
| Edits.TransposedWords | readline-6.2/text.c:1377-1434 | for two different words that do not overlap the line has them exchanged and point behind them; otherwise nothing changes |
| Edits.TransposeStep | readline-6.2/text.c:1377-1434 | transposing two words keeps the log sound |
| Edits.LogsOneUnit | readline-6.2/text.c:83-202 | every operation but a coalesced insertion logs nothing, one record, or one group without groups in it |
| Edits.UndoTakesBack | readline-6.2/undo.c:166-232 | one undo directly after such an operation gives the text and the log from before it back |
| Edits.UndoRestores | readline-6.2/undo.c:166-232 | for every sequence of edits and undos, when the log is back at its length of the start, so is the text |
| Edits.RevertRestores | readline-6.2/undo.c:292-310 | after every sequence of edits from an empty log, reverting gives the text of the start back |
| Edits.EditOpens | readline-6.2/undo.c:253-288 | every operation but the beginning and the end of a group, and an undo of a beginning, keeps the open groups of the log |
| Edits.RunStaysBalanced | readline-6.2/undo.c:166-232 | after every run with matched groups the log is balanced, and one undo leaves it so |
| Edits.UndoSucceeds | readline-6.2/undo.c:166-232 | in every run that ends no group it has not begun, an undo fails if and only if there is nothing to undo |
| Edits.UnmatchedEndFails | readline-6.2/undo.c:166-232 | after an end without a beginning, an undo takes everything back and fails |
| LineEditor.LineEditor.AddUndo | readline-6.2/undo.c:91-104 | the record is the newest of the log; the text is untouched |
| LineEditor.LineEditor.InsertText | readline-6.2/text.c:83-117 | the buffer, point and log become those of the insertion, and the number of characters inserted is returned |
| LineEditor.LineEditor.DeleteText | readline-6.2/text.c:119-157 | the buffer and the log become those of the deletion, and the number of characters deleted is returned |
| LineEditor.LineEditor.ReplaceHistoryData | readline-6.2/history.c:396-433 | called with -1, every entry that points to the one list is made to point to the other |
| LineEditor.LineEditor.DoUndo | readline-6.2/undo.c:166-232 | the line becomes the undone line, the history entries that shared the log follow it, the result tells whether the group was complete, and afterwards no undo is going on |
| LineEditor.FollowsTheList | readline-6.2/history.c:396-433 | a history entry that shares the undo list is left with the list as it is after the undo |
| LineEditor.UnwindOne | readline-6.2/undo.c:166-232 | taking one more record back keeps the line, point, log and history on the way to the undone line |
| LineEditor.LineEditor.RevertLine | readline-6.2/undo.c:292-310 | the text is what all records together stand for, point is where taking them back leaves it, the log is empty, and no undo is going on |
| LineEditor.LineEditor.Execute | readline-6.2/undo.c:166-232 | each edit or undo does to the buffer, point and log what the operation on values does |
| LineEditor.LineEditor.Run | readline-6.2/undo.c:166-232 | after any sequence of edits and undos the buffer, point and log are the last of its trace, to which the results about runs apply |
| LineEditor.LineEditor.RunAndRevert | readline-6.2/undo.c:292-310 | after any sequence of edits from an empty log, reverting leaves the text of the start in the buffer |
| LineEditor.LineEditor.BeginUndoGroup | readline-6.2/undo.c:253-260 | a beginning is logged |
| LineEditor.LineEditor.EndUndoGroup | readline-6.2/undo.c:262-269 | an end is logged |
| LineEditor.LineEditor.Modifying | readline-6.2/undo.c:271-288 | the stretch is logged as deleted and inserted in a group, if there is any of it, for bounds in either order |
| LineEditor.LineEditor.ReplaceText | readline-6.2/text.c:183-202 | the line becomes the one with the stretch replaced |
| LineEditor.LineEditor.ForwardWord | readline-6.2/text.c:461-508 | point moves over as many words, in either direction, to the end of the last or the end of the line |
| LineEditor.LineEditor.BackwardWord | readline-6.2/text.c:510-557 | point moves back over as many words, in either direction, to the start of the last or the start of the line |
| LineEditor.LineEditor.ChangeCase | readline-6.2/text.c:1282-1372 | every letter of the words gets the case asked for, no other character changes, point is behind them or stays, and the log was written before the text |
| LineEditor.LineEditor.RecaseLoop | readline-6.2/text.c:1309-1368 | rewriting character by character in place gives every letter of the stretch its case, capitals at the starts of words, and leaves the rest |
| LineEditor.LineEditor.TransposeWords | readline-6.2/text.c:1377-1434 | the line becomes the one with the words exchanged, or stays as it is if there are no two words |
| HistoryLines.PreviousHistory | readline-6.2/history.c:182-186 | the position moves back by one and is returned, unless it is at the start |
| HistoryLines.ReplaceFromHistory | readline-6.2/misc.c:415-433 | the line is the entry's with the entry's undo list, and point at its end |
| HistoryLines.RevertEntry | readline-6.2/misc.c:459-472 | the entry has its original text, its time and no undo list, and the other entries have their texts and lists |
| HistoryLines.RevertedRestores | readline-6.2/misc.c:459-472 | for an entry that holds a line after any edits, the original text is the one from before the first of them |
| HistoryLines.RevertAllLines | readline-6.2/misc.c:441-484 | every entry at or before the position has its original text and no list, later entries are untouched, and the line being edited and the position are what they were |
| Kill.KillConserves | readline-6.2/kill.c:165-187 | a kill between point and any other place keeps the text that the slot and the line make up together |
| Kill.CommandConserves | readline-6.2/kill.c:200-343 | each kill command that kills something keeps that text |
| Kill.CommandDoes | readline-6.2/kill.c:200-449 | what each command takes and what it leaves: so many words, the line up to its end or start, so many words between blanks, or the region; it is a new slot or is added to the last one at the side of the kill, and point is where it was |
| Kill.RuboutCounts | readline-6.2/kill.c:315-343 | going back over count words between blanks ends at the start of the count-th one, or of the line |
| Kill.RunConserves | readline-6.2/kill.c:91-187 | after any run of such commands, forward and backward mixed, the text before point, the slot and the text behind point are the original text |
| Kill.RunYanks | readline-6.2/kill.c:502-515 | one yank after any run of kills gives what the kills collected so far and the line make up together |
| Kill.YankRestores | readline-6.2/kill.c:502-515 | one yank after any run of kills gives the original text back |
| Kill.FullLineConserves | readline-6.2/kill.c:297-308 | killing the full line keeps the original text exactly if the text before point and what was killed before can change places |
| Kill.FullLineTakes | readline-6.2/kill.c:297-308 | the whole text is in the slot, behind what was there, and none is left |
| Kill.FullLineSwapsText | readline-6.2/kill.c:297-308 | a state in which killing the full line and yanking swaps two pieces of the text |
| Kill.EmptyKillConserves | readline-6.2/kill.c:165-175 | a region kill of no text keeps the text together exactly if a kill went before it or the last slot is empty, and leaves a slot for the next kill exactly if the ring has one |
| Kill.EmptyKillRestores | readline-6.2/kill.c:410-426 | after a region kill of no text and any run of kills, one yank restores the line if and only if the last slot was empty |
| Kill.EmptyFullLine | readline-6.2/kill.c:297-308 | the same for killing an empty line |
| Kill.EmptyKillJoinsOldSlot | readline-6.2/kill.c:410-426 | a state in which a region kill of no text makes the next kill extend an older slot |
| Kill.PopReplaces | readline-6.2/kill.c:521-551 | popping exchanges the yanked text for the slot before it and leaves what is around it |
| Kill.PoppedText | readline-6.2/kill.c:521-551 | the text of the current slot before point is exchanged for that of the slot before, and point and mark are around it |
| Kill.PopsRotate | readline-6.2/kill.c:521-551 | n pops show the slot n places before, round the ring |
| Kill.PopsComeRound | readline-6.2/kill.c:521-551 | popping once round the ring brings the yanked text back |
| KillRing.KillRing.CopyToKillRing | readline-6.2/kill.c:91-161 | the killed text is a new last slot, the oldest of ten dropped, or extends the last slot at the side of the kill |
| KillRing.KillRing.KillText | readline-6.2/kill.c:165-187 | the text is deleted and copied to the ring, and the kill is counted even if there was none |
| KillRing.KillRing.KillWord | readline-6.2/kill.c:200-222 | the text to the end of as many words is killed forward, or, for a negative count, to the start of as many backward |
| KillRing.KillRing.BackwardKillWord | readline-6.2/kill.c:224-246 | the text to the start of as many words is killed backward, or, for a negative count, to the end of as many forward |
| KillRing.KillRing.KillLine | readline-6.2/kill.c:248-269 | the text to the end of the line is killed forward, or, for a negative direction, to its start backward |
| KillRing.KillRing.BackwardKillLine | readline-6.2/kill.c:271-294 | the text to the start of the line is killed backward, or, for a negative direction, to its end forward |
| KillRing.KillRing.UnixWordRubout | readline-6.2/kill.c:315-343 | the text back over as many words between blanks is killed |
| KillRing.KillRing.UnixLineDiscard | readline-6.2/kill.c:392-406 | everything before point is killed backward, the text behind it is left and point is at its start |
| KillRing.KillRing.KillRegion | readline-6.2/kill.c:437-449 | the text between point and mark is killed to the side of mark, and that counts as a kill even without text; the next kill can go on from it exactly if something was killed or the ring has a slot |
| KillRing.KillRing.KillFullLine | readline-6.2/kill.c:297-308 | the state is the one after killing the whole line from its start; the next kill can go on from it exactly if there was text or the ring has a slot |
| KillRing.KillRing.Yank | readline-6.2/kill.c:502-515 | the current slot is inserted and mark set, or nothing happens if there is no ring |
| KillRing.KillRing.YankPop | readline-6.2/kill.c:521-551 | the yanked text is exchanged for the slot before, and nothing happens exactly if the last command was no yank, the ring is empty or the text is not before point; the result tells which |
| KillRing.KillRing.KillAndYank | readline-6.2/kill.c:91-187 | any run of commands that all kill something, and a yank, leave the text of the start in the buffer |
| Display.FirstDifference | readline-6.2/display.c:1388-1418 | the place of the first difference of two rows, with everything before it the same |
| Display.LastSame | readline-6.2/display.c:1448-1492 | the places from which the rows are the same to their ends, or the ends; trailing blanks alone do not count |
| Display.InsertedRow | readline-6.2/display.c:1617-1697 | inserting the surplus and overwriting the rest turns the old row into the new one |
| Display.DeletedRow | readline-6.2/display.c:1717-1754 | deleting the surplus and overwriting the rest turns the old row into the new one |
| Display.OverwrittenRow | readline-6.2/display.c:1755-1796 | writing the rest of the new row and erasing behind it gives the new row, whatever was there before |
| Display.Display.InsertSomeChars | readline-6.2/display.c:2351-2398 | whatever insert capability there is, the characters are in the row and what was there has moved right |
| Display.Display.DeleteChars | readline-6.2/display.c:2401-2423 | with either delete capability the cells are gone and the rest has moved left |
| Display.Display.SpaceToEol | readline-6.2/display.c:2329-2340 | so many blanks are written, and the cursor record is right |
| Display.Display.ClearToEol | readline-6.2/display.c:2317-2328 | the rest of the row is blank, by the capability or by writing blanks |
| Display.Display.MoveVert | readline-6.2/display.c:2037-2066 | the cursor is in the row asked for and no cell has changed |
| Display.Display.MoveCursorRelative | readline-6.2/display.c:1897-2034 | the cursor is in the column asked for and no cell has changed, by backspaces, by a carriage return or by writing what is there |
| Display.Display.Grow | readline-6.2/display.c:1593-1716 | the branch for a row that has grown leaves the new text in the row |
| Display.Display.Shrink | readline-6.2/display.c:1717-1754 | the branch for a row that has not grown, with a delete capability, leaves the new text in the row |
| Display.Display.PrintOver | readline-6.2/display.c:1755-1796 | the branch without one leaves the new text in the row |
| Display.Display.WrapAround | readline-6.2/display.c:1282-1363 | with the cursor behind the end of the row above on a terminal that wraps, the first cell is written and the record follows; the row shows the old text with this change, or it does not matter what it shows |
| Display.Display.UpdateLine | readline-6.2/display.c:1268-1797 | for every pair of rows, every setting of the capabilities and every place of the cursor a row that showed the old text shows the new one padded with blanks, no other row changes, and the record of the cursor is its column |
| Rendering.ShownApart | readline-6.2/display.c:768-893 | in the same column no two characters look the same, but for a blank and a tab just before a tab stop |
| Rendering.OctalForm | readline-6.2/display.c:785-805 | a byte with the high bit is shown as the three octal digits of its value |
| Rendering.ExpandDepicts | readline-6.2/display.c:785-893 | a tab is blanks to the next multiple of eight, a control character a caret and its letter, a rubout "^?", a byte with the high bit its octal digits or itself, and a printing character itself |
| Rendering.DepictsUnique | readline-6.2/display.c:785-893 | that determines the cells of a character |
| Layout.BreaksUnique | readline-6.2/display.c:655-657 | the row breaks are determined by the line that is shown |
| Layout.AddChars | readline-6.2/display.c:639-653 | adding cells, with a new row when one is full, keeps the rows |
| Layout.AddNewline | readline-6.2/display.c:842-852 | a newline ends a row and keeps the rows |
| Layout.RenderLaysOut | readline-6.2/display.c:655-893 | in the laid out line each character is shown in the cells from its place to the next one's, a tab ending at the first multiple of eight behind the column that its place has in its row |
| Layout.Layout.CheckLpos | readline-6.2/display.c:639-653 | lpos stays the distance from the last break and on the screen |
| Layout.Layout.Draw | readline-6.2/display.c:768-893 | a character adds its cells to the line and keeps lpos and the rows |
| Layout.Layout.DrawPrompt | readline-6.2/display.c:655-724 | the line starts with the mark and the prompt, cut into full rows |
| Layout.Layout.LayOut | readline-6.2/display.c:655-917 | the line is the mark, the prompt and then the cells of each character of the text, every row is at most one screen width, the rows partition the line, and the cursor is at the place of character point, in row lb_linenum at a column of the screen |
| Redisplay.RowIsRow | readline-6.2/display.c:957-961 | each row of a laid out line, read at its break, is a row as update_line takes it |
| Redisplay.ShowingCells | readline-6.2/display.c:957-1049 | each cell of the screen holds the character of the line that lies in its row and column, or a blank |
| Redisplay.Screen.UpdateRows | readline-6.2/display.c:968-984 | the loop leaves each row of the new line in its row of the screen, and the rows below as they were |
| Redisplay.Screen.EraseRows | readline-6.2/display.c:1036-1049 | rows that are left over are blank, and the others as they were |
| Redisplay.Screen.PlaceCursor | readline-6.2/display.c:1052-1131 | the cursor is in its row and column and no cell has changed |
| Redisplay.Screen.Redisplay | readline-6.2/display.c:925-1133 | however the screen was filled by earlier redisplays, each row shows its row of the prompt and the line laid out character by character, the others are blank, and the cursor is at the place of character point |
| Tokenizer.TokensPartition | readline-6.2/histexpand.c:1561-1612 | tokens are non-empty slices in order, with only blanks before each up to the end or a comment |
| Tokenizer.PartitionCovers | readline-6.2/histexpand.c:1561-1612 | every position before the stop is a blank or in a token |
| Tokenizer.PartitionOrdered | readline-6.2/histexpand.c:1561-1612 | tokens do not overlap |
| Tokenizer.UnpairedRunsOver | readline-6.2/histexpand.c:1496-1537 | for every line a word runs over the end if and only if the line ends in an unpaired backslash that is neither in a comment nor inside single quotes |
| Tokenizer.WordLoopPairs | readline-6.2/histexpand.c:1496-1537 | the loop of one word runs over the end exactly if the last backslash is unpaired and no single quote is open |
| Tokenizer.QuotedBackslashStays | readline-6.2/histexpand.c:1503-1508 | inside single quotes a final backslash stays inside, outside it does not |
| Tokenizer.SplitsTheLine | readline-6.2/histexpand.c:1561-1612 | splitting such a line partitions it |
| Tokenizer.PlainWord | readline-6.2/histexpand.c:1496-1540 | a word of characters without a meaning, and characters behind backslashes, ends at the next delimiter or the end of the line |
| Tokenizer.QuotedWord | readline-6.2/histexpand.c:1493-1530 | text in any of the three quotes is in one word up to its own closing quote, whatever delimiters it holds; outside single quotes a quote behind a backslash does not close |
| Tokenizer.SubstitutionWord | readline-6.2/histexpand.c:1451-1486 | a command or process substitution or an extended pattern is one word up to the parenthesis that closes it, nested ones and delimiters included |
| Tokenizer.OperatorWord | readline-6.2/histexpand.c:1424-1474 | the operators of the shell, of one to three characters, are words of their own, the longest one that is there |
| Tokenizer.DelimiterRun | readline-6.2/histexpand.c:1587-1596 | delimiters that start no word are taken together up to the next character that is no delimiter |
| Tokenizer.TokenizeWord | readline-6.2/histexpand.c:1414-1540 | the loops find the end of the word |
| Tokenizer.TokenizeInternal | readline-6.2/histexpand.c:1561-1612 | the words are the texts of the tokens, and the reported index is the token that holds the given offset, -1 exactly if none does |
| Tokenizer.FindWord | readline-6.2/histexpand.c:1638-1660 | the word at an offset, and nothing exactly if no token holds it |
| Quoting.UnquoteQuoted | readline-6.2/shell.c:92-119 | quote removal (section 2.2.2 of POSIX.1-2008 XCU) gives the text back |
| Quoting.QuotedIsOneToken | readline-6.2/histexpand.c:1414-1540 | the quoted form of any text is one token, unless quotes start comments |
| Quoting.BreaksSurviveSplitting | readline-6.2/histexpand.c:326-366 | the tokens of quote_breaks are the quoted fields between blanks and newlines, and each newline by itself |
| Quoting.BrokenWordsAreFields | readline-6.2/histexpand.c:326-366 | for text without newlines the tokens are exactly the quoted fields, and quote removal gives the fields back |
| Quoting.ShSingleQuote | readline-6.2/shell.c:92-119 | the buffer holds the quoted text and its NUL, and is large enough |
| Quoting.CountBroken | readline-6.2/histexpand.c:334-342 | the counted length is the length of the result and its NUL |
| Quoting.QuoteBreaks | readline-6.2/histexpand.c:326-366 | the buffer is filled exactly with the broken text and its NUL |
| Subst.CutsLeftToRight | readline-6.2/histexpand.c:790-842 | the replaced places are occurrences taken from left to right without overlap |
| Subst.OneWayToCut | readline-6.2/histexpand.c:790-842 | no other places are like that |
| Subst.EveryHitCovered | readline-6.2/histexpand.c:790-842 | globally, every occurrence is replaced or starts inside of a replaced one |
| Subst.FirstReplaced | readline-6.2/histexpand.c:835-840 | not globally, only the first occurrence is exchanged |
| Subst.ReplacedGlobally | readline-6.2/histexpand.c:790-842 | globally, the result is the text before the first occurrence, the new text, and the result for what comes behind the occurrence |
| Subst.NothingReplaced | readline-6.2/histexpand.c:790-842 | a text in which the pattern does not occur stays |
| Subst.ReplacedBySelf | readline-6.2/histexpand.c:790-842 | replacing a pattern by itself changes nothing |
| Subst.ReplacedLength | readline-6.2/histexpand.c:804-827 | the length changes by the same amount at each replaced place |
| Subst.SearchLoop | readline-6.2/histexpand.c:790-842 | the loop, which never rescans what it inserted and ends for every pattern and replacement, gives the replaced line, and fails exactly if nothing is to be replaced |
| Subst.Substitute | readline-6.2/histexpand.c:758-853 | an empty pattern and a pattern that does not occur are the two errors, and otherwise the replaced line results |
| KeySeq.PrintedIsReadBack | readline-6.2/bind.c:443-568 | reading what was printed gives the text back if and only if no character is misread behind a file separator, for all bytes 1 to 127 and either setting of convert-meta |
| KeySeq.RoundTrip | readline-6.2/bind.c:621-671 | every text without a file separator comes back |
| KeySeq.FSIsLost | readline-6.2/bind.c:645-668 | a file separator before the letter a does not come back |
| KeySeq.NeverShifted | readline-6.2/bind.c:538-553 | text that is printed is never read as itself with some characters put before it |
| KeySeq.LetterEscapes | readline-6.2/bind.c:506-535 | a, b, d, e, f, n, r, t and v behind a backslash stand for 7, 8, 127, 27, 12, 10, 13, 9 and 11 |
| KeySeq.OtherEscapes | readline-6.2/bind.c:555-558 | any other character behind a backslash stands for itself |
| KeySeq.OctalEscapes | readline-6.2/bind.c:538-545 | one to three octal digits stand for the byte of their value |
| KeySeq.HexEscapes | readline-6.2/bind.c:546-554 | one or two hexadecimal digits behind x stand for the byte of their value, and without any x for itself |
| KeySeq.ControlPrefix | readline-6.2/bind.c:492-497 | \C- gives the low five bits of the next character, and the rubout for a question mark |
| KeySeq.MetaPrefix | readline-6.2/bind.c:472-491 | \M- sets the eighth bit of the next character, or puts an escape before it |
| KeySeq.BothPrefixes | readline-6.2/bind.c:463-484 | both prefixes in either order |
| KeySeq.PrintedForm | readline-6.2/bind.c:621-671 | how each of the bytes 1 to 127 is printed |
| KeySeq.PrintedMeta | readline-6.2/bind.c:621-671 | a byte with the eighth bit is printed behind \M- without that bit, escaped only if it is an escape, a backslash or a double quote |
| KeySeq.PrintedLength | readline-6.2/bind.c:628-630 | the printed form is at most five times as long |
| KeySeq.UntranslateMacroValue | readline-6.2/bind.c:621-671 | the buffer holds the printed form and its NUL, and is large enough |
| KeySeq.ReadDigits | readline-6.2/bind.c:538-553 | the digit loops read up to two more digits |
| KeySeq.TranslateKeyseq | readline-6.2/bind.c:443-568 | the array holds the keys that were read and a NUL |
| HistoryStore.KeptTwice | readline-6.2/history.c:268-287 | forgetting the oldest entry at each step is forgetting all that is too much in the end |
| HistoryStore.History.AddHistory | readline-6.2/history.c:263-311 | the entry comes last, the oldest goes and the base moves exactly if the list is stifled and full, nothing is kept if it is stifled at zero, and the array always has room for the null entry |
| HistoryStore.History.AddHistoryTime | readline-6.2/history.c:313-326 | the last entry gets the time and nothing else changes |
| HistoryFile.FewerLines | readline-6.2/histfile.c:238-240 | a file has no more lines than characters |
| HistoryFile.CountNeverStops | readline-6.2/histfile.c:238-289 | reading a whole file never stops early |
| HistoryFile.ReadWritten | readline-6.2/histfile.c:166-304 | what is read of a written list, line by line and time by time |
| HistoryFile.RoundTrip | readline-6.2/histfile.c:427-532 | writing and reading back gives as many entries, each with its line and with its time if that was written, or else the time of reading, for lines that fit |
| HistoryFile.LinesComeBack | readline-6.2/histfile.c:260-281 | the lines come back if and only if each is non-empty, without newline, without a final carriage return and does not look like a time |
| HistoryRange.RangeWithoutTimes | readline-6.2/histfile.c:246-289 | which lines a range gives in a file without times |
| HistoryRange.EndBeforeStart | readline-6.2/histfile.c:161-289 | an end that is not negative and before the start gives everything from the start on if and only if all lines behind the first of them are empty |
| HistoryRange.EndBeforeStartStops | readline-6.2/histfile.c:161-289 | a file of three entries where such a range gives one and not two |
| HistoryRange.RangeOfWritten | readline-6.2/histfile.c:246-289 | which entries a range of a file that was written with times gives, that reading starts one entry early behind a first entry with a time, and that the first one read loses its time |
| HistoryRange.SkipLosesTime | readline-6.2/histfile.c:246-258 | passing over k entries gives the entries behind them if and only if there are fewer than k, or the first one has no time and the one reading starts at has none either (or the time of reading) |
| HistoryRange.RangeIsSlice | readline-6.2/histfile.c:246-289 | where passing over entries is right, a range gives exactly the entries from its start up to its end, with the times that were written |
| HistoryRange.SkipStartsEarly | readline-6.2/histfile.c:246-258 | in a file of one entry with a time, passing over one entry gives it again and without its time |
| HistoryFile.HistoryDoWrite | readline-6.2/histfile.c:427-532 | the buffer of the last so many entries is counted and filled exactly |
| HistoryFile.SkipLines | readline-6.2/histfile.c:246-258 | where reading starts and how many lines are counted |
| HistoryFile.CutLine | readline-6.2/histfile.c:260-268 | the line is cut off in the buffer at its newline or carriage return, and the buffer behind it is untouched |
| HistoryFile.TakeLine | readline-6.2/histfile.c:270-284 | a line makes an entry with the waiting time, or is itself a time and waits |
| HistoryFile.ReadHistoryRange | readline-6.2/histfile.c:166-304 | the entries of the range are added to the list, stifled or not, in their order |
| Searching.MatchesEitherWay | readline-6.2/histsearch.c:91-144 | whether a line matches does not depend on the direction of the search |
| Searching.MatchIsNearest | readline-6.2/histsearch.c:91-144 | where a line matches the string stands there, and nowhere before, or nowhere behind when searching backwards, and at the start if anchored |
| Searching.HitsAreMatches | readline-6.2/histsearch.c:61-154 | the hits are exactly the matching lines on that side |
| Searching.HitsInOrder | readline-6.2/histsearch.c:61-154 | the hits come in the direction of the search |
| Searching.FoundAreMatches | readline-6.2/search.c:112-138 | searching from a position finds the lines on that side that hold the string, or start with it if a caret comes before it |
| Searching.FreshAreHits | readline-6.2/search.c:476-480 | after skipping, no two lines in a row have the same text, and none the text found before |
| Searching.FreshOfDistinct | readline-6.2/search.c:476-480 | only a line that repeats the one before it is skipped |
| Searching.FreshOrRepeated | readline-6.2/search.c:476-480 | a hit is skipped if and only if it has the text of the hit before it |
| Searching.WalkSelects | readline-6.2/search.c:454-482 | going from hit to hit and counting the new ones selects the count-th new line, or the last hit if there are fewer |
| Searching.Searcher.ScanLine | readline-6.2/histsearch.c:91-144 | the nearest place in the direction of the search, or the start of the line if anchored |
| Searching.Searcher.HistorySearchInternal | readline-6.2/histsearch.c:61-154 | the nearest matching line becomes the position, which moves only if there is one, and the result is the place of the string in it |
| Searching.Searcher.NonincSearchFromPos | readline-6.2/search.c:112-138 | the nearest hit from a position, with the position in the history kept |
| Searching.Searcher.HistorySearch | readline-6.2/search.c:450-512 | the count-th line that is new is selected, or the farthest hit if there are fewer, and the position in the history is kept |
| Completion.AtMostIs | readline-6.2/util.c:423-438 | a prefix comes before the string, and otherwise the first bytes that differ decide |
| Completion.AtMostTransitive | readline-6.2/util.c:423-438 | the order of strings is transitive |
| Completion.SortedSet | readline-6.2/complete.c:1081-1138 | sorting and removing neighbours that are equal keeps the set and puts it strictly in order |
| Completion.DedupedIsSet | readline-6.2/complete.c:1081-1138 | the first place keeps its string and the others are the same set, strictly sorted, but that a single one equal to the first is dropped |
| Completion.NeighboursSuffice | readline-6.2/complete.c:1142-1292 | comparing each match with the next finds the longest prefix common to all of them, up to the limit of 100000 |
| Completion.LcdIs | readline-6.2/complete.c:1142-1292 | the first place is the only match, the longest prefix common to several that start alike, or the text that was typed |
| Completion.ComputeLcdOfMatches | readline-6.2/complete.c:1142-1292 | the first place holds the only match, the typed text, or the common prefix |
| Completion.MarkDead | readline-6.2/complete.c:1102-1111 | exactly the strings equal to the next are marked, and the others counted |
| Completion.RemoveDuplicateMatches | readline-6.2/complete.c:1081-1138 | the new array is large enough and holds the list without duplicates |
| InputRing.UngetThenGet | readline-6.2/input.c:119-155 | a key that is pushed back is read next, and the rest is as before |
| InputRing.StuffedInOrder | readline-6.2/input.c:359-381 | stuffed keys wait behind those that are there, in their order |
| InputRing.ReadInOrder | readline-6.2/input.c:118-137 | keys are read from the front in their order |
| InputRing.KeysConserved | readline-6.2/input.c:95-155 | over any mixture of operations each key was there or taken in as often as it is there afterwards or was given out |
| InputRing.Ring.IbufferSpace | readline-6.2/input.c:107-116 | the space is 511 less the number of keys |
| InputRing.Ring.GetChar | readline-6.2/input.c:118-137 | the first key of the queue is taken, or there is none |
| InputRing.Ring.UngetChar | readline-6.2/input.c:143-155 | the key goes to the front if there is space, and otherwise nothing changes |
| InputRing.Ring.StuffChar | readline-6.2/input.c:359-381 | the key goes to the back if there is space; the end of the input is stuffed as a newline and noted |
| InputRing.Ring.Run | readline-6.2/input.c:95-155 | every mixture of operations answers as a queue with two ends of capacity 511 does |

## Left out

- Multibyte characters, vi mode, isearch, numeric arguments as they are typed, and macros being replayed or recorded.
- Reading from the terminal, signals, files and the clock: keys, the text of a file, the capabilities of the terminal and
  the time of an entry are inputs; running a command function is an event in a log.
- Keymaps are values in a store and a pointer to a keymap is its index: freeing a keymap, a null keymap or macro pointer,
  and two entries that share a submap are not modelled. Keys are below 128, with the conversion of meta keys off.
- The dispatcher is given no pending input and no macro, its pushed-back keys always fit (the ring of 511 keys is modelled
  by itself), and the end of the input inside a sequence aborts it.
- KeyReader.SameSession: asks for a root that shadows nothing, where the two dispatchers could be compared only as far as
  the first dispatch that backs out; so do `KeyReader.Reader.ReadAll` and `KeyReader.Reader.CallbackAll`.
- `rl_do_lowercase_version` bound to another key than an upper-case letter, where the dispatcher would call itself forever.
- `rl_maybe_replace_line` tells a changed line by the pointer to its undo list; that the undo lists of the history entries
  are sound for their lines is an assumption of `HistoryLines.RevertAllLines`.
- In redisplaying, `rl_display_fixed`, invisible characters in the prompt, horizontal scrolling, and terminals that cannot
  move up.
- Redisplay.Screen.Redisplay: asks for a line with no more rows than the screen; the code cuts a longer one to a screenful.
- Layout.Layout.LayOut: asks for a screen of at least eight columns.
- KeyReader.Reader.CallbackReadChar: an abort inside of a chain returns to its caller; the code jumps to where it last
  saved its place, which in a later turn of the same call can be a function that has returned.
- Keymaps.KeymapTable.GenericBind: binds functions and macros; binding a sequence to a keymap is not modelled.
- `replace_history_data` is modelled for the call with -1, the one that `rl_do_undo` makes.
- The record positions -1 and -2 of `rl_do_undo`, which only vi mode logs.
- The `:G` modifier, whose word ends are computed before the text changes length, and reading the pattern and replacement
  of a substitution from the command.
- KeySeq.TranslateKeyseq: leaves out sequences that end in a bare `\C-` or `\M-`, where the code reads behind the end.
- In completion, case folding, the dequoting function of file names, and a `strcoll` that is not byte order. `qsort` is
  modelled by what it leaves.
- The kill commands on file names, copying words as kills, `rl_yank_nth_arg` and the number of retained kills as a setting.
- Removing history entries, changing the limit of a stifled list, and truncating the file.
- HistoryStore.History.AddHistoryTime: asks for a non-empty list, since on an empty one the code writes before the array.
- HistoryFile.TakeLine: asks for a list that is not stifled at zero entries, where setting a time writes before the array.
- HistoryFile.ReadHistoryRange: asks for such a list too.
- Tokenizer.TokenizeInternal: asks that no word runs over the end of the line, where the code reads behind the string.
- Tokenizer.FindWord: asks the same.
