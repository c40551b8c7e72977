# Verification of libghost's core algorithms

libghost runs untrusted Lua in a child process (the subjail) and mediates what it does from a trusted host. This project models the parts of it that hold real algorithms and state machines, and proves properties of them over all inputs and all runs. Each C function that changes things step by step is a method of a class with the same fields, proved against a function; the properties themselves are lemmas about those functions. Where a property does not hold of the code, the code is modelled as it is, a concrete input shows the failure, and a lemma says exactly when the property holds.

| files | what they model |
|---|---|
| `Basics` | what several modules share |
| `Memory`, `TypeTable`, `DeepCopy`, `DeepCopyProof`, `DeepCopyVisit`, `DeepCopyMeaning`, `DeepCopyTables`, `TightSlots`, `TypeNames`, `TypeSystem` | the runtime type system: deep copies of typed object graphs out of foreign memory, and types derived from names |
| `Paths`, `PermFs`, `PermOutcomes`, `PermExec` | the filesystem permission engine and the gate for programs, over unbounded runs with an arbitrary prompter |
| `GhpermLexer`, `GhpermText`, `GhpermComments`, `GhpermPlaces`, `GhpermReadings`, `GhpermSpare`, `GhpermHarmless`, `Ghperm`, `GhpermLoad`, `GhpermRoundTrip`, `GhpermGrammar`, `GhpermMachine`, `GhpermLayout`, `GhpermParser`, `GhpermWriter` | the GHPERM file: tokenizer, parser, printer, and the print/parse round trip |
| `Session` | host and subjail as two processes joined by two queues |
| `Rpc`, `RpcFrame`, `RpcLocks` | calls of host functions from the subjail, and the mutexes around them |
| `FdMem` | memory shared by two mappings, and Lua calls with their parameters and results in it |
| `PrepTokenizer`, `Prep` | the preprocessor example: tokenizer and backtracking macro machine |
| `Seccomp` | the two system call filters, run by a classic BPF machine |
| `CmdLine` | how a command line and an environment are shown to the user |
| `DynamicArray` | the growing array, with the cost of its reallocations |
| `ThreadWait` | the time a subjail is given to quit |

Main results, hardest first:

- **Deep copy.** A retrieved object graph means the same as the remote one exactly when no static array or tagged union in it holds a pointer to anything that takes bytes, and no array pointer to elements that are not copied in one piece has anything but zeros behind its first element (the "only when" half for buffers that share no address with the foreign memory). A condition on the type table alone is enough. Only fresh bytes are written, and for every table retrieving succeeds exactly when what the copy visits can be read and fits. Where only eight bytes are set aside for the sixteen of an array pointer, the first eight bytes of its elements come out as their own address; so with raw elements it comes out whole exactly when it is empty or its elements start with the address they are copied to.
- **GHPERM round trip.** A policy comes back from its own file if and only if its paths are distinct and free of `"`, `\`, `#` and NUL, all its bits have names, and its command line entries are all in accept mode. The parser ends on every text, and reading any file amounts to a run of the permission engine. A file can be loaded if and only if its tokens are those of a policy in the grammar, and then the store is what that policy means; on every other file the parser fails like a machine that takes one token at a time, with the same error and the same store. What the first entry of a program in a file says is what the gate does after every run. What a comment does is given wherever it is met, by the tokenizer itself or by one of the steps that an earlier comment makes the scanner take, whatever is in it and behind it; and for every file that can be read without it, so is the exact condition under which it can be taken out. A comment that is not met is read by nobody, or is part of one that is.
- **Permission runs.** A gate that is rejected with remembering is rejected over every run; a request that is, stays so if and only if the user was asked about the path itself, or what was asked for its children landed where no later entry hides it, over all runs and over those that name canonical paths only; a gate accepted with remembering prompts at most twice; a request that is, stays granted while all answers accept if and only if what was accepted for its children went where it applies to them, and still applies when an ancestor gets an entry that can; an answer to the gate for programs is remembered to any effect if and only if there was no entry for the program; a flag is set for a path if and only if the user was asked about it there and wants the answer remembered, or a file sets it; the modes of a path are the union over component-wise ancestors, with the exact condition under which those for children are what was meant.
- **Session.** Steps of host and subjail commute, so all schedules end in the same state; every command returns its own script's result if and only if the host answers every call and no script but the last fails to load; until then the queues hold at most two messages and one, every call gets its own reply, and the two sides never wait for each other. Smooth or not, every command that was given gets one outcome.
- **Preprocessor.** The machine that moves its index back by one, two or three tokens always ends, and does what a recursive grammar says if and only if no macro is left open, or the first one left open has nothing behind its parenthesis.
- **Remote calls.** The arguments arrive whatever the new buffer held if and only if the sizes do not wrap, all arguments can be read and the return size is not taken off wrongly; then a remote call is a local one. Which messages are answered, and with what, is given for all of them. Functions that must not overlap never do, and nobody is ever stuck.
- **Command lines.** Two of them read the same if and only if the path of one is that of the other with some of its quoted arguments behind it; so the text tells a program from all with shorter paths exactly when its path does not end in quoted arguments.
- **Shared memory, filters, arrays, waiting**: see the tables below.

Where the code and what is written about it disagree, the model follows the code:

- The comment at src/ghost/perms/permfs.c:187-191 describes a prefix test that an entry for the root directory never passes (`BelowIsProperAncestorExceptRoot`).
- `permwriter_writeescaped` (src/ghost/perms/writer.c:52-58) escapes nothing; `#` starts a comment even inside a string (src/ghost/perms/parser.c:25-30). Behind white space and in strings, a comment takes the first character of the next line along; right behind a token it does not. If the next line starts with a comment, that one is skipped in the same step, with the character behind it (`CommentSkips`, `CommentTakes`, `TwoCommentLines`, `SecondCommentLine`). `CommentHarmlessIff` says when a comment can be taken out; in a string it never can (`CommentInString`). A file cannot start with one (`CommentFirstIsAnError`).
- `gh_str_trimrightchar` (src/ghost/strings.c:44-51) drops one character for each match anywhere in the string, not only at its end (`TrimRightIsTrailingIffNoneInside`).
- `gh_ts_retrievet` hands out the start of the buffer, also when the value was put behind earlier ones (`RetrieveCopies`).
- `gh_thread_callframe_getlstring` and `_getstring` (src/ghost/thread.c:550-579) take the length of a string from the memory that the subjail has written, unchecked; `StringInsideIff` says when the string lies in the mapping, and only then does the model hand it out. `_getstring` says that it found nothing when the text is empty or ends in a zero, although it has set the pointer (`StringIsFoundIff`).
- Numbers that a Lua function returns are always doubles (src/jail/subjail.c:252-263), so `gh_thread_callframe_getint` never finds an integer in a result (`NoIntegerIsReturned`).
- The comment at src/jail/subjail.c:607 says that the second filter blocks what makes processes; `clone` passes both filters (`CloneStaysAllowed`).

## Model

| member | source | states |
|---|---|---|
| Memory.WordBytesRoundTrip | src/ghost/typesystem.c:165-228 | eight bytes hold every address: storing a word and reading it back is the identity |
| DeepCopy.ImageIsIdentityIffComplete | src/ghost/typesystem.c:113-234 | with primitives, static arrays and unions taken for bytes, as the copy does: nothing is lost if and only if every array pointer has raw elements, or only blanks behind its first one |
| DeepCopyProof.CopyPreserves | src/ghost/typesystem.c:113-234 | whatever the copy can walk remotely, and fits, is copied; walking the copy finds the image of the value, and only the target slot and fresh bytes are written |
| DeepCopyProof.CopyFieldsPreserves | src/ghost/typesystem.c:137-157 | the same for the fields of a struct laid out apart from each other |
| DeepCopyProof.CopyFirstOfSlice | src/ghost/typesystem.c:194-228 | of elements that are not raw bytes an array pointer brings over the first one only |
| DeepCopyProof.RetrieveCopies | src/ghost/typesystem.c:236-252 | the value is in the buffer where the buffer had ended, earlier contents stay, and the pointer handed out is right exactly when the buffer was empty |
| DeepCopyProof.GoodMeansWalkable | src/ghost/typesystem.c:113-234 | a copy that succeeds was of a value that can be walked, and used exactly the room that value spans |
| DeepCopyProof.RetrieveSucceedsExactly | src/ghost/typesystem.c:236-252 | with raw array elements, retrieving succeeds if and only if the remote value can be walked and fits |
| DeepCopyVisit.CopySucceedsIff | src/ghost/typesystem.c:113-234 | for every type table: copying succeeds if and only if all that it visits is there and fits, where of array pointers to elements that are not raw it visits the first element only; otherwise it fails with the first error that the visit meets, if there is room until then, and for lack of room if there is not |
| DeepCopyVisit.RetrieveSucceedsIff | src/ghost/typesystem.c:236-252 | the same for retrieving |
| DeepCopyVisit.WalkedIsVisited | src/ghost/typesystem.c:113-234 | whatever can be walked to the end can be visited, and takes the room its value spans |
| DeepCopyMeaning.SameBytesMean | src/ghost/typesystem.c:118-129 | of a value copied as plain bytes, static arrays item by item and unions by the case of their tag, the meaning survives if and only if no pointer in it leads to anything that takes bytes |
| DeepCopyMeaning.ImageMeans | src/ghost/typesystem.c:113-234 | the same for every kind of value and its copy, however deep |
| DeepCopyMeaning.RetrieveMeansTheSameIff | src/ghost/typesystem.c:236-252 | a retrieved value means what the remote one does if and only if that is faithful: flat static arrays and unions, and array pointers that lose nothing |
| DeepCopyMeaning.StaticPointerStaysForeign | src/ghost/typesystem.c:125-129 | the address of an `int` in a static array comes over as it is |
| DeepCopyMeaning.SharedAddressHides | src/ghost/typesystem.c:125-129 | why the condition is exact only for buffers without foreign addresses: there the stray pointer may hit the same bytes by chance |
| DeepCopyTables.SafeIsFaithful | src/ghost/typesystem.c:113-234 | if a type table keeps pointers out of static arrays, unions and array elements, and has array pointers to elements copied in one piece only, all its values mean the same once copied |
| DeepCopyTables.SafeTablesKeepMeaning | src/ghost/typesystem.c:236-252 | so with such a table, in which every part has the room it needs, as it must have in the type retrieved: whatever can be walked and decoded, and fits, is retrieved with its meaning, if the type is not itself an array pointer, for which there is no room |
| TightSlots.RetrieveArrayPointerIff | src/ghost/typesystem.c:88-90 | an array pointer with raw elements, retrieved on its own, comes out whole if and only if it is empty or its elements start with the address they are copied to |
| TightSlots.PointerToArrayPointerIff | src/ghost/typesystem.c:165-192 | the same behind a pointer, with raw elements |
| TightSlots.ArrayOfOneArrayPointerIff | src/ghost/typesystem.c:194-228 | the same for one with raw elements that is the only element of another |
| TightSlots.ArrayOfArrayPointers | src/ghost/typesystem.c:194-228 | of an array pointer to several, whatever their elements: the words at steps of eight bytes are the count and the address of the first one, or zeros if it is empty, and zeros after that; the others do not come over |
| TightSlots.TightCopyMemory | src/ghost/typesystem.c:194-228 | whatever its elements: an array pointer copied to the last eight bytes in use comes out with its count and their address, and the elements as they were copied but for their first eight bytes, which hold that address |
| TightSlots.RetrieveArrayPointerMemory | src/ghost/typesystem.c:236-252 | so it is for one that is retrieved on its own |
| TightSlots.PointerToArrayPointerMemory | src/ghost/typesystem.c:165-192 | and behind a pointer |
| TightSlots.RetrieveEmptyArrayPointer | src/ghost/typesystem.c:194-228 | an empty one comes out empty: its slot and the eight bytes behind are zeros |
| TightSlots.FirstPointsToItself | src/ghost/typesystem.c:194-228 | if the elements are pointers, the first one comes out pointing to itself, even if it was null |
| TightSlots.StaticArrayPointers | src/ghost/typesystem.c:125-129 | of a static array of array pointers, half the bytes come over: in the first half of the items both words do, with foreign addresses, and the others come out empty |
| TightSlots.StaticArrayPointerComesOutEmpty | src/ghost/typesystem.c:125-129 | so in a static array of one, only the count comes over |
| TypeTable.SizeOfChain | src/ghost/typesystem.c:66-95 | the size of a static array, of static arrays and so on, is the product of all counts with the size of what is in the innermost one; there is none if that is missing or invalid, or if the array is made of itself |
| TypeSystem.ByteBuffer.Expand | src/ghost/byte_buffer.c:36-51 | hands out the bytes behind those in use, or changes nothing |
| TypeSystem.TypeSystem.FindByName | src/ghost/typesystem.c:25-38 | finds the first type of a name |
| TypeSystem.TypeSystem.SizeT | src/ghost/typesystem.c:66-95 | computes the size of a kind through the table |
| TypeSystem.TypeSystem.RetrieveInto | src/ghost/typesystem.c:113-234 | the in-place copy does exactly what the function the theorems are about does |
| TypeSystem.TypeSystem.RetrieveFields | src/ghost/typesystem.c:137-157 | the struct loop, likewise |
| TypeSystem.TypeSystem.RetrieveT | src/ghost/typesystem.c:236-252 | the entry point, likewise |
| TypeSystem.TypeSystem.Append | src/ghost/typesystem.c:44-51 | a type is added exactly when its name is new and not empty, so names stay unique |
| TypeNames.TrimRight | src/ghost/strings.c:44-51 | the loop drops as many characters as there are matches anywhere |
| TypeNames.TrimRightIsTrailingIffNoneInside | src/ghost/strings.c:44-51 | it trims the end if and only if no match stands before another character |
| TypeNames.InnerSpaceEatsTheName | src/ghost/strings.c:44-51 | `unsigned int` becomes `unsigned in` |
| TypeNames.FindLast | src/ghost/strings.c:61-72 | finds the last occurrence of a character |
| TypeNames.DeriveKind | src/ghost/typesystem.c:266-325 | the suffix analysis of a type name, tied to the function that `DeriveMeans` is about |
| TypeNames.DeriveMeans | src/ghost/typesystem.c:281-325 | from kinds to names and back: a name with `*` behind it is a pointer to what it names, with `[]` an array pointer, with a number in brackets a static array of that length, unless the number is no machine word |
| TypeNames.LengthIsTheNumber | src/ghost/typesystem.c:306-320 | what is taken for the length, whatever is in the brackets: decimal digits, behind white space and a sign, with anything behind them; a negative number wraps around, and no number is zero |
| TypeNames.UnderivableIff | src/ghost/typesystem.c:281-339 | exactly which names stand for no derived type |
| TypeNames.DerivableClosure | src/ghost/typesystem.c:266-340 | names that can be derived already make nothing else derivable |
| TypeSystem.TypeSystem.MakeFromName | src/ghost/typesystem.c:266-340 | succeeds if and only if taking suffixes off leads to a known type; then the name is in the table, and all that was added is derivable; otherwise the error is for the first stem that is empty or stands for nothing |
| TypeSystem.TypeSystem.MakeOf | src/ghost/typesystem.c:342-376 | the same for everything a kind refers to |
| TypeSystem.TypeSystem.MakeDerivatives | src/ghost/typesystem.c:378-387 | ends although the list grows while it is iterated; succeeds if and only if all references are derivable, and then every referenced name is in the table; otherwise the error is that of the first type that was there and refers to what cannot be made, or is invalid; whatever is added is of the kind that its name tells |
| Paths.BelowMeaning | src/ghost/perms/permfs.c:187-193 | the string comparison for directories is a proper prefix followed by a slash |
| Paths.ExactMeaning | src/ghost/perms/permfs.c:180-185 | the string comparison for the path itself is equality |
| Paths.BelowIsProperAncestorExceptRoot | src/ghost/perms/permfs.c:187-193 | on canonical paths it recognises exactly the proper component-wise ancestors other than the root |
| Paths.PathDeterminesComponents | src/ghost/perms/permfs.c:180-193 | canonical paths are equal if and only if their components are |
| PermFs.Engine.Add | src/ghost/perms/permfs.c:136-153 | adds an entry, or merges all flags into the entry that is there |
| PermFs.Engine.GetMode | src/ghost/perms/permfs.c:159-202 | the loop over the entries computes the modes of a path |
| PermFs.ModesForSelf | src/ghost/perms/permfs.c:175-197 | for the path itself: what its own entry grants and what every ancestor grants to what is in it |
| PermFs.ModesForChildren | src/ghost/perms/permfs.c:175-197 | for children: an ancestor behind the path's own entry puts the flags for the path in the place of those for children |
| PermFs.ModesForChildrenAsMeantIff | src/ghost/perms/permfs.c:193-196 | the exact condition under which children get what their own entry and its ancestors say |
| PermFs.ChildrenRejectLost | src/ghost/perms/permfs.c:195-196 | two entries in one order lose a reject flag that they keep in the other |
| PermFs.SelfBitMeaning | src/ghost/perms/permfs.c:175-197 | bit by bit, in terms of path components: set by the own entry, or for children by a proper ancestor other than the root |
| PermFs.GateDecides | src/ghost/perms/permfs.c:204-243 | a gate is rejected exactly when a bit is, silent exactly when all are accepted, and prompts otherwise |
| PermFs.RequestDecides | src/ghost/perms/permfs.c:447-530 | the same for a request for a path and its children, and for dry runs |
| PermFs.AsksForWhatIsMissingIff | src/ghost/perms/permfs.c:230-242 | the user is asked about exactly what is missing if and only if no prompt flag matches or the prompt set is just that |
| PermFs.RememberedForChildrenIff | src/ghost/perms/permfs.c:136-153 | in one call of `gh_permfs_add`: when what is remembered for children reaches the flags for children |
| PermFs.Engine.PromptRequest | src/ghost/perms/permfs.c:333-397 | what each answer does to the entries |
| PermFs.Engine.GateFile | src/ghost/perms/permfs.c:417-445 | the gate, tied to the function the run theorems are about |
| PermFs.Engine.RequestNode | src/ghost/perms/permfs.c:447-530 | the request, likewise; a dry run reports a prompt exactly when a real one would make it, and changes nothing |
| PermFs.RunGrows | src/ghost/perms/permfs.c:136-153 | in every run paths stay distinct and bit sets only grow |
| PermFs.RejectionIsPermanent | src/ghost/perms/permfs.c:204-445 | a gate rejected for good is rejected by policy, without a prompt, after any run with any answers |
| PermFs.RequestRejectionIsPermanentIff | src/ghost/perms/permfs.c:447-530 | a request rejected with remembering is rejected by policy after every run over a given kind of paths if and only if the user was asked about the path itself; or the path had an entry, and an ancestor's follows it or what was asked for its children is asked for the path too; or it had none, and no ancestor of that kind is without one |
| PermFs.CanonicalRejectionIsPermanentIff | src/ghost/perms/permfs.c:447-530 | the same over runs that name canonical paths only: without an entry for the path, the rejection lasts if and only if all directories above it but the root have one |
| PermFs.ChildrenRejectionForgotten | src/ghost/perms/permfs.c:145 | a rejection for the children of a path with an entry is forgotten at once |
| PermFs.RequestAcceptanceIsPermanentIff | src/ghost/perms/permfs.c:447-530 | a request accepted with remembering is granted without a prompt after every run over a given kind of paths that only accepts, if and only if all that was missing has been accepted where it applies: with an entry for the path, what was asked for its children goes to the path itself, and applies to them only if an ancestor's entry follows; and if one of that kind may yet come to follow, the path itself must have what its children need |
| PermFs.ChildrenAcceptanceForgotten | src/ghost/perms/permfs.c:145 | an acceptance for the children of a path with an entry is forgotten at once, however often it is repeated |
| PermFs.PromptsBounded | src/ghost/perms/permfs.c:204-445 | how the prompts still needed go down over a run that only accepts |
| PermFs.AcceptanceConverges | src/ghost/perms/permfs.c:204-445 | with answers that accept for good a gate prompts at most twice and then stays silent |
| PermOutcomes.GateGrantsIff | src/ghost/perms/permfs.c:417-445 | every gate: it goes through if and only if nothing of the mode is rejected, and all of it is accepted or the user says yes; who says no is heard; and entries change for an answer to be remembered only |
| PermOutcomes.RequestGrantsIff | src/ghost/perms/permfs.c:447-530 | every request, dry runs and requests for nothing included, likewise |
| PermOutcomes.FlagsHaveAReason | src/ghost/perms/permfs.c:333-397 | over every run: a flag is set for a path if and only if it was before, or the user was shown it for that path and the answer is remembered with that verdict, or a file sets it in an entry that is there |
| GhpermLexer.NextChar | src/ghost/perms/parser.c:14-33 | the scanner always moves on, ends, and never hands out a `#` |
| GhpermLexer.NextToken | src/ghost/perms/parser.c:211-254 | a token that is read consumes input |
| GhpermLexer.StuckEscapeNeverEnds | src/ghost/perms/parser.c:170-192 | a string with a backslash in it is never terminated, whatever follows |
| GhpermLexer.TokensAreClean | src/ghost/perms/parser.c:161-209 | no string token of any file holds a quote, a backslash, a `#` or a NUL |
| GhpermText.LexRender | src/ghost/perms/parser.c:211-254 | text in which every word is ended is read as exactly the tokens it was written from |
| GhpermComments.CommentSkips | src/ghost/perms/parser.c:25-30 | for every text: stepping onto a `#` hands out the end of its line, and leaves the scanner one step behind it for every `#` in the line |
| GhpermComments.ReachLex | src/ghost/perms/parser.c:127-254 | how the tokenizer stands at a character, with the tokens behind it, decides all it reads from there on |
| GhpermComments.CommentTakes | src/ghost/perms/parser.c:14-48 | wherever a comment is met, and whatever is in it and behind it: the tokenizer goes on as behind a line break, but the scanner first takes one step more than there are further `#` in the comment, besides those that an earlier comment has left it to take |
| GhpermComments.UnmetMeans | src/ghost/perms/parser.c:14-48 | no comment is left out by that: where none is met, the tokenizer has ended before, or the line of a comment that is met has not ended |
| GhpermPlaces.WrittenStands | src/ghost/perms/parser.c:211-254 | behind text written from tokens, a break finds the tokenizer with just these tokens read, in white space or right behind the last |
| GhpermReadings.AheadDiffers | src/ghost/perms/parser.c:127-254 | of two readings that are at the same character outside of strings, one that has read more never ends in the same tokens, unless the other sees something where it sees white space |
| GhpermReadings.InAndOut | src/ghost/perms/parser.c:161-209 | nor do two of which one is within a string |
| GhpermHarmless.CommentHarmless | src/ghost/perms/parser.c:14-48 | for every text: wherever it is met, a comment can be taken out if its steps pass white space only, and white space is met behind it where it is expected, or nothing is left |
| GhpermHarmless.CommentHarmlessIff | src/ghost/perms/parser.c:14-48 | of a file that can be read without it, a comment can be taken out wherever it is met if and only if that is so, or each token taken is a character that stands where a further comment has left the scanner |
| GhpermHarmless.PlainCommentIff | src/ghost/perms/parser.c:14-48 | for a comment with one `#`: if and only if the step it adds can be spared. Where no earlier comment has left steps to take: behind white space the next line must be empty or start with white space or a comment; behind a token only a comment must not come next, unless what it leaves the scanner at is white space; in a string it cannot be taken out |
| GhpermHarmless.CommentDrops | src/ghost/perms/parser.c:14-48 | with no further comment near, a comment is a line break that takes one character along for every `#` in it, and right behind a token one less, unless an earlier comment has left steps to take |
| GhpermHarmless.OnlyCommentIff | src/ghost/perms/parser.c:14-48 | if a file has one `#` only, with errors or without: the comment can be taken out if and only if it stands right behind a token, or the next line can spare its first character |
| GhpermHarmless.CommentInString | src/ghost/perms/parser.c:161-209 | within a string a comment can never be taken out |
| GhpermHarmless.CommentFirstIsAnError | src/ghost/perms/parser.c:211-254 | a file cannot start with a comment |
| GhpermHarmless.BehindBlankAndBehindWord | src/ghost/perms/parser.c:25-48 | two files: behind a blank the comment takes the next character, behind a word it does not |
| GhpermHarmless.TwoCommentLines | src/ghost/perms/parser.c:25-48 | two files: without the first of two comment lines, the second takes a character that it did not take |
| GhpermHarmless.SecondCommentLine | src/ghost/perms/parser.c:25-48 | files with two comment lines: the second is skipped in the step that the first makes the scanner take; behind a blank it takes a character all the same, behind a word it does not |
| GhpermHarmless.MissedByChanceOnly | src/ghost/perms/parser.c:25-48 | files that read the same with and without a comment that takes a word, for one letter only |
| GhpermSpare.DropFirstIff | src/ghost/perms/parser.c:211-254 | the first character of a text without comments can be dropped if and only if it is white space, or tokenizing ends at it just as it ends without it |
| Ghperm.FlagOfName | src/ghost/perms/permfs.c:683-690 | flag names and flags are in bijection |
| Ghperm.NibbleOfIff | src/ghost/perms/permexec.c:333-346 | which characters are hexadecimal digits, in either case, and what they stand for |
| Ghperm.UnhexHex | src/ghost/perms/permexec.c:333-371 | hash bytes survive being written in hexadecimal and read |
| GhpermLoad.ParseIsRun | src/ghost/perms/parser.c:302-439 | whatever the file, and however reading it ends, the entries are those of a run that opens clean paths and sets fields |
| GhpermGrammar.PolicyIsRead | src/ghost/perms/parser.c:302-439 | every policy in the grammar, with any number of sections, entries and fields, is read as what it means: its flags are operations of the engine in their order, its command line entries come last with the mode of their last field, or the default |
| GhpermGrammar.LoadsIff | src/ghost/perms/parser.c:302-439 | and nothing else can be loaded: a file is good if and only if its tokens are those of such a policy |
| GhpermGrammar.FirstInFileDecides | src/ghost/perms/permexec.c:375-419 | the mode in the first entry of a program in a file is what the gate does after every run: `reject` forbids it in silence, `accept` allows it in silence, `prompt` asks |
| GhpermMachine.ParsesAsJudged | src/ghost/perms/parser.c:302-439 | every file, good or bad: the status and the store are those of a machine that takes one token at a time, with eight kinds of places and one table of what may come next |
| PermExec.ExecGrantsIff | src/ghost/perms/permexec.c:220-322 | every call: a program may run if and only if its first entry, or the default, accepts it, or asks and the user says yes; a no is heard; and the list grows by an answer to be remembered only |
| PermExec.RememberedSettlesIff | src/ghost/perms/permexec.c:220-322 | an answer that is remembered settles the gate for good if and only if the program had no entry; behind an entry that asks, it is stored and asked again forever |
| PermExec.HashList.Lookup | src/ghost/perms/permexec.c:63-73 | finds the first entry of a hash |
| PermExec.HashList.Ask | src/ghost/perms/permexec.c:220-322 | the gate, tied to the function the theorems are about |
| GhpermParser.Parser.NextCharacter | src/ghost/perms/parser.c:14-33 | the recursion through nested comments ends |
| GhpermParser.Parser.ReadString | src/ghost/perms/parser.c:161-209 | reads a string token, or fails at the end of the text |
| GhpermParser.Parser.NextToken | src/ghost/perms/parser.c:211-254 | hands out the first pending token, peeked at or not |
| GhpermParser.Parser.PeekToken | src/ghost/perms/parser.c:256-266 | looking ahead leaves the pending tokens as they are, so peeks and reads can be mixed |
| GhpermParser.Parser.NextOfKind | src/ghost/perms/parser.c:441-477 | takes a token of one kind, or leaves it pending |
| GhpermParser.Parser.ReadFlags | src/ghost/perms/permfs.c:677-691 | the flag loop, against its specification |
| GhpermParser.Parser.ReadFields | src/ghost/perms/parser.c:383-416 | the field loop of an entry, with all its errors |
| GhpermParser.Parser.NewEntry | src/ghost/perms/permexec.c:373-391 | opens an entry of either resource, or finds that the key is no hash |
| GhpermParser.Parser.ReadEntries | src/ghost/perms/parser.c:353-416 | the entry loop of a resource, with all its errors |
| GhpermParser.Parser.ReadResource | src/ghost/perms/parser.c:302-427 | one resource, with all its errors |
| GhpermParser.Parser.Parse | src/ghost/perms/parser.c:429-439 | the whole file; it ends on every text |
| GhpermParser.LoadFile | src/ghost/perms/perms.c:98-147 | loading a text into a store |
| GhpermWriter.NextModeFlag | src/ghost/perms/permfs.c:11-24 | takes the lowest set bit |
| GhpermWriter.Writer.Field | src/ghost/perms/writer.c:87-94 | starts a field line, with a line break unless it is the first |
| GhpermWriter.Writer.EndEntry | src/ghost/perms/writer.c:73-85 | ends an entry, with a line break if it has fields |
| GhpermWriter.Writer.WriteMode | src/ghost/perms/permfs.c:709-732 | succeeds if and only if every set bit has a name, and then has written the field |
| GhpermWriter.Writer.WriteFs | src/ghost/perms/permfs.c:748-768 | writes all entries, or fails because a bit has no name |
| GhpermWriter.Writer.WriteExec | src/ghost/perms/permexec.c:430-468 | writes all command line entries, hashes in hexadecimal |
| GhpermWriter.HexBytes | src/ghost/perms/permexec.c:438-441 | the loop that spells a hash |
| GhpermWriter.UnhexBytes | src/ghost/perms/permexec.c:359-371 | the loop that reads a hash |
| GhpermWriter.WriteStore | src/ghost/perms/perms.c:149-169 | the file is the text of the policy, or empty when a bit has no name |
| GhpermLayout.WrittenLooksLike | src/ghost/perms/permfs.c:709-768 | the text of every file that is written, line by line |
| GhpermRoundTrip.FileWritten | src/ghost/perms/permfs.c:748-768 | the tokens of the written file, for clean paths |
| GhpermRoundTrip.EntriesAreRead | src/ghost/perms/parser.c:353-416 | reading written entries behind others adds them in order |
| GhpermRoundTrip.ExecsAreRead | src/ghost/perms/permexec.c:393-419 | command line entries are read back if all are in accept mode, and are an error otherwise |
| GhpermRoundTrip.LoadedIsSound | src/ghost/perms/parser.c:429-439 | whatever the file, loading it leaves distinct, clean paths |
| GhpermRoundTrip.RoundTripIff | src/ghost/perms/perms.c:149-169 | exactly which policies come back from the file written from them |
| Session.StepsRunOut | src/ghost/thread.c:217-330 | every step brings the session closer to its end, whatever the scripts and the host's answers |
| Session.RunsAreShort | src/ghost/thread.c:217-330 | a bound on the length of every run |
| Session.Commute | src/ghost/ipc.c:216-253 | steps of the two sides commute |
| Session.Determinate | src/ghost/thread.c:217-330 | all schedules end in the same state |
| Session.HostKeepsShape | src/ghost/thread.c:217-279 | what every step of the host keeps: the calls and results still to come are those of the current script |
| Session.SubKeepsShape | src/jail/subjail.c:43-102 | the same for every step of the subjail |
| Session.SmoothSessionsAreSafe | src/ghost/thread.c:292-330 | queue bounds, ids, order of calls, own replies, own results, and no mutual waiting, over every run of scripts that load and calls that are answered |
| Session.OutcomeEndsCommand | src/ghost/thread.c:217-330 | what any message does to a waiting host: only the result of its own command is taken for a result, each error is the one for its cause, and the answer to a call goes out in the same step |
| Session.OneOutcomeEach | src/ghost/thread.c:292-337 | over every run of any scripts: each command that was given has one outcome, but for the one the host still waits for |
| Session.StrayReplyKills | src/jail/subjail.c:378-438 | a reply that nobody waits for ends the subjail for good |
| Session.LoadFailure | src/jail/subjail.c:87-101 | after a load error a second result is left in the queue |
| Session.StaleResult | src/ghost/thread.c:305-308 | the next command takes that result for its own information message and fails |
| Session.Finish | src/ghost/thread.c:217-237 | a call that the host does not answer ends the command with an error, any other script is finished |
| Session.MeantIff | src/ghost/thread.c:292-337 | whatever the schedule, exactly when every command returns the result of its own script |
| Session.Thread.Process | src/ghost/thread.c:239-290 | receives and handles one message |
| Session.Thread.SyncScript | src/ghost/thread.c:314-330 | the receive loop of the host is a run of its steps |
| Session.Subjail.Go | src/jail/subjail.c:378-438 | the message loop of the subjail, with what it calls, is a run of its steps |
| PrepTokenizer.TokensTokenize | examples/prep/tokenizer.c:111-121 | tokens are contiguous, pure and as long as can be, with one end token at the end |
| PrepTokenizer.TokensAreUnique | examples/prep/tokenizer.c:111-121 | there is no other way to cut a text like that |
| PrepTokenizer.TokensJoinToInput | examples/prep/tokenizer.c:17-121 | the tokens join up to the input before the first NUL |
| PrepTokenizer.Tokenizer.EatWhitespace | examples/prep/tokenizer.c:56-79 | eats the whole run of blanks |
| PrepTokenizer.Tokenizer.EatText | examples/prep/tokenizer.c:85-109 | eats the whole run of text |
| PrepTokenizer.Tokenizer.NextToken | examples/prep/tokenizer.c:111-121 | returns the token at the current place and moves behind it |
| PrepTokenizer.Tokenize | examples/prep/prep.c:249-257 | collects all tokens |
| Prep.ParamIsItsTokens | examples/prep/prep.c:143-176 | the parameter cut out of the buffer is the text of the tokens between the parentheses |
| Prep.TraceIsMeaningIff | examples/prep/prep.c:105-228 | exactly when the machine does what the grammar says |
| Prep.TailHasMeaning | examples/prep/prep.c:185-189 | nothing can be opened in the last three tokens, so a level left open does no harm |
| Prep.MacroLeftOpen | examples/prep/prep.c:185-189 | an open macro prints a `#` and resumes two tokens before the end |
| Prep.Fsm.ProcessNormal | examples/prep/prep.c:105-118 | keeps what was printed equal to the trace so far |
| Prep.Fsm.ProcessMacroName | examples/prep/prep.c:120-141 | the same, moving back by at most one token and never below the start |
| Prep.Fsm.ProcessMacroLParen | examples/prep/prep.c:143-159 | the same, moving back by at most two |
| Prep.Fsm.ProcessMacroParam | examples/prep/prep.c:161-196 | the same, moving back by at most three; a return to normal is behind the last normal place |
| Prep.Process | examples/prep/prep.c:198-228 | ends on every token buffer, and prints the trace |
| Prep.Preprocess | examples/prep/prep.c:230-260 | from the text of the input on |
| Rpc.SlicesTile | src/ghost/rpc.c:155-160 | as long as the sizes do not wrap, argument slices do not overlap, leave no gap and end where the return slice starts |
| Rpc.FitsIff | src/ghost/rpc.c:128-169 | a frame with a buffer lies within it if and only if the sizes do not wrap |
| Rpc.WrapSlipsUnderTheLimit | src/ghost/rpc.c:131-146 | five sizes that wrap pass under a frame limit of eight bytes, with slices far outside |
| Rpc.PieceOfGather | src/ghost/rpc.c:128-174 | each slice holds its own argument |
| Rpc.ArgumentsArriveIff | src/ghost/rpc.c:101-189 | for every message, and whatever the buffer held: the arguments arrive if and only if the sizes do not wrap, all can be read and the length of the read is right |
| Rpc.LengthEnough | src/ghost/rpc.c:153 | when the machine word given for the length covers the arguments, for sizes that do not wrap |
| Rpc.ValueThenZeros | src/ghost/rpc.c:195-197 | a return value that fits ends up with zeros behind it, and one that does not is an error |
| Rpc.LastActionCounts | src/ghost/rpc.c:310-324 | the result a function sets last is its result, and the value it sets last is returned over those before, or is a size error |
| Rpc.CallFrameIsLocal | src/ghost/rpc.c:191-219 | a call through a frame does what a local call with the frame's arguments does |
| Rpc.RemoteCallIsLocal | src/ghost/rpc.c:191-261 | the answer and the caller's memory after a remote call are those of a local call; the rest of the memory is as before |
| Rpc.FramedIff | src/ghost/rpc.c:101-189 | which messages get a frame, and which error any other meets |
| Rpc.AnsweredIff | src/ghost/thread.c:217-237 | every message: an unknown function is answered as missing; a frame over the limit, or arguments that cannot be read at all, are not answered, and the caller's memory stays; every other message is answered with the result of the call, but for a return value that cannot be written, unless wrapping sizes lead the host out of the buffer |
| Rpc.WrittenBack | src/ghost/rpc.c:221-245 | of the caller's memory, only the room for the return value changes, and it holds the value |
| RpcFrame.NewFrame | src/ghost/rpc.c:101-189 | builds the frame in place, with all its errors |
| RpcFrame.Call.PutReturn | src/ghost/rpc.c:310-320 | sets the return value, or notes that it is too large |
| RpcFrame.Call.CallOnce | src/ghost/rpc.c:191-219 | a frame is called once, and not after it was disposed of |
| RpcFrame.Call.Answer | src/ghost/rpc.c:221-261 | writes the return value back only on success, and answers |
| RpcFrame.HandleCall | src/ghost/thread.c:217-237 | the whole exchange; only a missing function is answered when there is no frame |
| RpcLocks.RunKeeps | src/ghost/rpc.c:199-216 | over any run, a locked mutex is held by the one thread inside a function that needs it |
| RpcLocks.NeverTogether | src/ghost/rpc.c:199-216 | functions that must not run at the same time never do, for any number of threads |
| RpcLocks.WaitsOnlyForAClash | src/ghost/rpc.c:199-205 | a thread waits exactly when another one is inside a function that clashes with its own |
| RpcLocks.NeverStuck | src/ghost/rpc.c:199-216 | a waiting thread can enter, or the owner of the mutex it waits for is inside a function that clashes with its own, can leave, and lets it in by leaving |
| FdMem.RealPtrIff | src/ghost/fdmem.c:77-88 | for every pointer and size: translated exactly when the whole block is in the occupied part, if and only if the end of the block does not wrap into that part |
| FdMem.VirtPtrIff | src/ghost/fdmem.c:90-99 | the same for an address |
| FdMem.WrappedSizePasses | src/ghost/fdmem.c:84-88 | a size that wraps around gets a block translated that is not there |
| FdMem.SameBytesElsewhere | src/ghost/fdmem.c:77-99 | a pointer from one mapping addresses the same bytes in another, also after growth |
| FdMem.PaddedIff | src/ghost/thread.c:513-515 | a string survives the copy if and only if nothing but zeros follows a zero |
| FdMem.ReadWrite | src/ghost/thread.c:460-528 | a value that is written is read back, but for the end of a string behind a zero |
| FdMem.PushHolds | src/ghost/thread.c:460-528 | pushing a parameter keeps all earlier ones, in blocks of their own |
| FdMem.ParametersArrive | src/jail/subjail.c:336-351 | wherever the subjail maps the memory, it gets the host's parameters in order |
| FdMem.ResultComesBack | src/ghost/thread.c:581-596 | the pointer the subjail sends leads the host, in its new mapping, to the value the function returned |
| FdMem.StringInsideIff | src/ghost/thread.c:550-557 | the string that is handed out lies in the mapping if and only if the length in the value is no more than what is left of the file |
| FdMem.ZeroBehindIff | src/ghost/thread.c:559-579 | whatever the memory holds: `gh_thread_callframe_getstring` finds a string if and only if it does not end in a zero and a zero in the occupied part follows it |
| FdMem.StringIsFoundIff | src/ghost/thread.c:559-579 | of what a Lua function returned, `gh_thread_callframe_getstring` finds exactly the strings that are not empty and have no zero in them |
| FdMem.NoIntegerIsReturned | src/ghost/thread.c:534-557 | of what a Lua function returned, a number is found as a double and a string as a string; an integer is never found |
| FdMem.Mapping.New | src/ghost/fdmem.c:59-75 | hands out the next block, doubling the file until it fits |
| FdMem.Mapping.SyncTo | src/ghost/fdmem.c:113-119 | maps the whole file anew |
| FdMem.HostFrame.PushParam | src/ghost/thread.c:460-528 | pushes a parameter; one too many is an error that still uses up memory |
| FdMem.ReceiveParams | src/jail/subjail.c:336-351 | the parameter loop of the subjail |
| Seccomp.WordsAreFields | src/jail/jail.c:148-174 | the words that the programs load make up the call's number, architecture and arguments |
| Seccomp.LadderIsMembership | src/jail/jail.c:177-227 | for any list, comparisons with decreasing jumps decide membership |
| Seccomp.JumpsAreLadders | src/jail/jail.c:177-221 | the distances written out in both programs are those of a ladder |
| Seccomp.AfterChecks | src/jail/jail.c:159-174 | `fcntl` and `ioctl` pass with one value of the low half of their second argument only |
| Seccomp.JailMeans | src/jail/jail.c:148-227 | the first program allows exactly the listed calls and those two |
| Seccomp.SubjailMeans | src/jail/subjail.c:609-622 | the second allows exactly what is not on its list |
| Seccomp.SubjailMayCallIff | src/jail/subjail.c:607-622 | both together allow exactly the first list without `wait4` and `kill`; more filters never allow more |
| Seccomp.CloneStaysAllowed | src/jail/subjail.c:607-622 | `fork` is denied by both filters, `clone` by neither |
| CmdLine.UnquoteInverts | src/ghost/perms/permexec.c:88-111 | escaping can be undone, with the closing quote found at the right place |
| CmdLine.CmdLineDeterminesArgs | src/ghost/perms/permexec.c:113-127 | for one program the text determines all other arguments |
| CmdLine.QuoteInPathMisleads | src/ghost/perms/permexec.c:114 | a path with quoted text in it looks like another program with an argument |
| CmdLine.EndOfArgs | src/ghost/perms/permexec.c:113-127 | the quoted arguments that a text of quoted arguments ends in are its last ones |
| CmdLine.LookTheSameIff | src/ghost/perms/permexec.c:113-127 | two command lines read the same if and only if the longer path is the shorter one with arguments of its own behind it |
| CmdLine.TextDeterminesProgramIff | src/ghost/perms/permexec.c:113-127 | the text tells a program from all with shorter paths if and only if its path does not end in quoted arguments |
| CmdLine.CmdLineDeterminesAll | src/ghost/perms/permexec.c:113-127 | for paths that do not, the text determines path and arguments |
| CmdLine.QuotesThatDoNotMislead | src/ghost/perms/permexec.c:114 | a path that does not end in a quote is never misleading, whatever quotes are in it |
| CmdLine.EnvTextDeterminesEnv | src/ghost/perms/permexec.c:129-147 | the text determines the environment |
| CmdLine.Str.AppendChar | src/ghost/strings.c:74-82 | appends if there is room |
| CmdLine.Str.Append | src/ghost/strings.c:84-97 | appends all, or what fits, or nothing |
| CmdLine.Str.AppendEscaped | src/ghost/perms/permexec.c:88-111 | succeeds exactly when the escaped text fits |
| CmdLine.BuildCmdLine | src/ghost/perms/permexec.c:113-127 | succeeds exactly when the text fits |
| CmdLine.BuildEnv | src/ghost/perms/permexec.c:129-147 | succeeds exactly when the text fits |
| DynamicArray.DoubledIsTwice | src/ghost/dynamic_array.c:51-54 | the new capacity is a doubling of the old one, below twice the target |
| DynamicArray.NewIsSound | src/ghost/dynamic_array.c:7-17 | a new array satisfies the invariant that every run keeps |
| DynamicArray.RunKeeps | src/ghost/dynamic_array.c:45-103 | any mix of operations refines a sequence, keeps the capacity a doubling below four times the largest size, and moves less than twice that size in all |
| DynamicArray.DynamicArray.ExpandToFit | src/ghost/dynamic_array.c:45-62 | makes room, or fails at the maximum and changes nothing |
| DynamicArray.DynamicArray.Append | src/ghost/dynamic_array.c:64-72 | appends one element |
| DynamicArray.DynamicArray.AppendMany | src/ghost/dynamic_array.c:74-82 | appends many |
| DynamicArray.DynamicArray.RemoveAt | src/ghost/dynamic_array.c:84-103 | the shifting loop removes exactly one element |
| ThreadWait.MsBetweenBounds | src/ghost/thread.c:139 | the truncated difference is less than a millisecond off, on either side |
| ThreadWait.ChargesBothWays | src/ghost/thread.c:139 | truncation charges a millisecond for a nanosecond, and nothing for almost one |
| ThreadWait.Budget | src/ghost/thread.c:121-175 | over any rounds the remaining time never grows, and what was taken off it is the true polling time to within a millisecond a poll |
| ThreadWait.KilledInTime | src/ghost/thread.c:121-175 | no kill before the polls took the budget less a millisecond each; while time is left they took less than the budget and a millisecond each |
| ThreadWait.EndsBehindTheMessages | src/ghost/thread.c:121-175 | with a `poll` that is ready only for an event at a descriptor it was given: the wait lasts at most one round more than there are messages, and not even that once the clock has failed or the peer is gone |
| ThreadWait.FirstEndDecides | src/ghost/thread.c:121-175 | over any rounds: the first one in which `poll` fails, gives up or finds the process gone decides how the wait ends; with an error if and only if the clock failed before, or the handling of a message did while messages were still looked at |
| ThreadWait.Wait | src/ghost/thread.c:90-176 | the loop, against its specification |

## Left out

- System calls (memory mapping, sockets, polling, process memory, signals, seccomp installation): memory, queues and rounds of events with arbitrary contents stand for them. The switch that turns the sandbox off is not modelled.
- TypeSystem.ByteBuffer.Expand: the buffer has all its memory from the start, with zeros behind what is in use; the source doubles it as needed, without a maximum, and clears the new part.
- DeepCopyProof.RetrieveSucceedsExactly: not fitting is a failure of that fixed memory; in the source, only an allocation that fails stands in its place.
- DeepCopyProof.CopyPreserves: for layouts with room for every field; array pointers behind pointers, and as elements, have none, and TightSlots says what becomes of them.
- DeepCopyMeaning.RetrieveMeansTheSameIff: for values that the copy can walk, and whose static arrays and unions have room for their parts. The code never looks at the tag of a union; the model reads it as the `int64_t` it is declared as, and takes the first case that has it.
- Moving buffers: the byte buffer of the type system and the shared memory grow where they are. `ipcfdmem_resize` does not store a moved mapping (src/ghost/fdmem.c:50-55), the deep copy keeps pointers into its buffer while it grows, and `ts_makederivatives` (src/ghost/typesystem.c:350-365) still reads the fields of a struct or union through a pointer into the list of types after `gh_ts_append` may have moved that list; the model takes the kind by value.
- Overflow of sizes: element counts times sizes in the type system and the dynamic array are unbounded.
- TightSlots.ArrayOfArrayPointers: what code that steps through the array by C's sixteen bytes finds behind the eight for each element that were set aside.
- RpcFrame.HandleCall: where the C code would read or write outside of the frame's buffer, it stops and nothing is said.
- Depth of recursion: `ts_retrieve` and `gh_ts_sizet` have a depth instead of the C stack, and writing outside the buffer is an error of the model (`Fault`) instead of undefined behaviour; negative field offsets and the builtin types are not modelled. The theorems about the copy hold for every depth at which the value can be walked and decoded.
- Builds that leave buffers uninitialised (GH_TRADEOFF_UNINITBYTEBUFFER), or copy structs as a whole before their pointers (GH_TRADEOFF_WHOLESALESTRUCTCOPY, src/ghost/typesystem.c:132-154).
- The maximum capacity of the type list.
- Rows and columns of tokens, error details, and the memory that token texts live in: a token holds its text.
- Generic permission tables, descriptions for the prompter, and the prompter's own interface: an answer is an arbitrary value. SHA-256 is not part of this model; a hash is any 32 bytes.
- Failing writes to the permission file: the writer's output is always accepted.
- The translation of open flags to modes (src/ghost/perms/permfs.c:538-625), and path and process descriptors.
- PermExec.HashList.Ask: the hash of a program and its arguments, and the environment variables shown with the question (src/ghost/perms/permexec.c:228-247), come from outside; they do not change the decision.
- Timeouts of message receipt, the quit command, file descriptors in messages, and messages a misbehaving subjail could make up: a session is one of scripts, each a finite list of calls and a result.
- Session.Subjail.Go: keeps its place in an explicit state instead of the C stack, because its calls block in the middle of a script.
- RpcFrame.Call: argument bytes that only partly fit an element of the read are not transferred in part; file descriptors returned by functions and failures to lock are not modelled.
- GhpermComments.CommentTakes: for a comment that ends in a line break, and not behind one that ends in a NUL and takes steps beyond it; CommentSkips says what the scanner does at any.
- GhpermComments.UnmetMeans: for text without a NUL before the comment.
- GhpermHarmless.CommentHarmlessIff: for files that can be read without the comment, with no NUL behind it; which files with errors end in the same error is said for one comment only (OnlyCommentIff).
- RpcLocks.NeverStuck: for functions that do not call others through the same registry.
- FdMem.HostFrame.PushParam: assumes that the grown memory still fits in the address space where it is mapped.
- FdMem.Read: gives nothing for a string whose length passes the end of the file, where src/ghost/thread.c:550-579 goes on.
- Rpc.ArgumentsArriveIff: of what the system call refuses or cuts, only lengths from 2^63 on are modelled. Linux also cuts a transfer just below 2^31 bytes, which looks like a short read that the code does not notice, and refuses single sizes from 2^63 on, which `Gather` takes.
- The conversion of numbers inside Lua.
- CmdLine.BuildCmdLine: arguments are C strings, so they hold no NUL.
- ThreadWait.Wait: differences of more than 2^31 milliseconds between two clock readings, where the code's cast would wrap.
- `gh_rpc_newframe`, `flexible_list.c`, the Lua runtime and the code generators.
