# UltimatePhobia: verified models

A Dafny 4.11 model of the stateful and text-processing parts of UltimatePhobia, with proofs of what they promise.
`dafny verify dfyconfig.toml` checks the whole project.

What is modelled, one file per component:

- **Console and configuration text** (`UltimatePhobia/CLI11.hpp`): bracket matching (`Brackets`), splitting
  (`Splitting`), backslash and Unicode escapes (`Escapes`), binary strings (`BinaryStrings`), printing and reading
  configuration values (`ConfigValues`, `ConfigRoundTrip`), section events (`Sections`), paragraph wrapping
  (`Paragraphs`).
- **The argument parser** (`UltimatePhobia/CLI11.hpp`): overflow-checked multiplication (`CheckedArithmetic`), the
  option state machine (`Options`), the argument loop (`FlatParser`, `FlatApp`), callbacks by priority (`Callbacks`),
  and whole runs of loop and callbacks (`FlatRuns`).
- **Code patching** (`UltimatePhobia/game_hook.cpp`, `game_hook.hpp`): `GameHooks`.
- **The FFI runtime** (`UltimatePhobia/ffi_interface.cpp`, `ffi_loader.cpp`): the handle table (`Handles`) and the
  re-entrant call and hook discipline (`CurrentMod`).
- **The audio callback** (`SteamAudioImpl/playback.cpp`): `Playbacks`.
- **The room server** (`signaling.py`): `Rooms`.
- **Tab completion** (`UltimatePhobia/console.cpp`): `TabCompletion`.

Code that updates objects or runs loops is written as classes, methods and loops; each method's contract gives its
result, or the new state, as a function of the inputs or the old state, and the properties are lemmas about those
functions. Three properties turned out to be false of the code without a further condition, and the exact condition
is proved, each with a concrete case in which it fails:

- `Sections.NestsExactly`: a return to the default section out of a multi-level section leaves levels open
  (`Sections.ReturnToDefaultStrands`).
- `CurrentMod.DisciplineHoldsExactly`: `runtimeClassInit` and `runtimeObjectInit` run game code without saving the
  current mod (`CurrentMod.ClassInitBreaksDiscipline`), and an exception that `call3` lets through a hook can leave yet
  another mod current (`CurrentMod.ExceptionBreaksDiscipline`). `CurrentMod.UncutDiscipline` is the condition without
  such exceptions.
- `TabCompletion.TabExtendsExactly`: input that ends in a tab, or in other white space than a blank, behind a word is
  cut in the wrong place (`TabCompletion.TabBehindTabBreaks`). This concerns `onTab` as a function: its only caller,
  `UltimatePhobia/mods/game_console.cpp` (`isPrintableVirtualKey`, `updateKeyboard`), inserts what printable keys give,
  so typed input does not end that way.

`Playbacks.DelayIsExact` gives the exact condition under which a delayed playback is heard at all
(`Playbacks.OversteppedDelayIsSilent` is a case in which it is not), and `Handles.DropKeepsCompact` the one drop that
breaks the handle table (`Handles.DroppingNullLosesAnObject`).

Assumptions about the surroundings: `isspace` is that of the classic locale; `isprint`, the text-to-double conversion,
validators, conversions and callbacks are arbitrary functions; writes to process memory succeed; samples are exact
numbers; the clock of the room server does not run backwards.

## Model

| member | source | states |
|---|---|---|
| Brackets.CloseStringQuote | UltimatePhobia/CLI11.hpp:1078-1090 | the loop finds the first unescaped closing quote; a trailing backslash runs one past the end |
| Brackets.CloseSequence | UltimatePhobia/CLI11.hpp:1097-1146 | the loop with its explicit stack of closers computes the recursive-descent reading, for every text, start and closer |
| Brackets.DescendPrinted | UltimatePhobia/CLI11.hpp:1116-1140 | in any surrounding text, reading a nest of quoted runs and brackets stops exactly at the mate behind it |
| Brackets.DescendReads | UltimatePhobia/CLI11.hpp:1116-1140 | whatever is skipped to reach a mate belongs to the nesting grammar |
| Brackets.SequenceEndIsTheMate | UltimatePhobia/CLI11.hpp:1097-1146 | an index is returned if and only if it holds the closer and the text before it is well nested; so the mate is unique |
| Brackets.SequenceEndUnclosed | UltimatePhobia/CLI11.hpp:1142-1145 | the length of the text is returned exactly when no mate exists |
| Splitting.SplitUpLoop | UltimatePhobia/CLI11.hpp:1148-1195 | the loop that cuts items off the front computes the splitting function, also for text behind a closing quote |
| Splitting.SplitJoin | UltimatePhobia/CLI11.hpp:1148-1195 | splitting at commas undoes joining with comma and blank, for any list of self-closing or bare texts |
| Splitting.SplitAlone | UltimatePhobia/CLI11.hpp:1148-1195 | a quoted or bare text is its own only item for the comma, white-space and comment delimiters |
| Escapes.AddEscapedCharacters | UltimatePhobia/CLI11.hpp:961-974 | the loop replaces exactly the seven escapable characters |
| Escapes.ReadHex | UltimatePhobia/CLI11.hpp:1036-1045 | the digit loop with its falling multiplier gives the value of the digits, within 32 bits, or refuses |
| Escapes.RemoveEscapedCharacters | UltimatePhobia/CLI11.hpp:1018-1076 | the loop unescapes as specified, with every error case |
| Escapes.RemoveAddEscaped | UltimatePhobia/CLI11.hpp:961-1076 | unescaping undoes escaping on every string |
| Escapes.BitsAreSums | UltimatePhobia/CLI11.hpp:992-1016 | in 32-bit arithmetic each bitwise or joins disjoint bits, so it is the sum used in the model |
| Escapes.DecodeUtf8One | UltimatePhobia/CLI11.hpp:992-1016 | a code is encoded if and only if it is a Unicode scalar value, and an RFC 3629 decoder reads it back |
| Escapes.EscapesBecomeUtf8 | UltimatePhobia/CLI11.hpp:1018-1076 | any sequence of `\u` and `\U` escapes is accepted exactly when all are scalar values, and decodes to that sequence |
| BinaryStrings.BinaryEscapeString | UltimatePhobia/CLI11.hpp:1213-1253 | both passes write what the specification says, for every choice of printable characters |
| BinaryStrings.EscapeQuotes | UltimatePhobia/CLI11.hpp:1240-1246 | the in-place pass over single quotes replaces each of them once |
| BinaryStrings.ExtractBinaryString | UltimatePhobia/CLI11.hpp:1263-1300 | the loop decodes hexadecimal escapes between the marks and leaves unmarked text alone |
| BinaryStrings.ExtractBinaryEscape | UltimatePhobia/CLI11.hpp:1213-1300 | extraction undoes escaping for every byte string and every printable predicate; no single quote is left inside |
| ConfigValues.IniJoin | UltimatePhobia/CLI11.hpp:11528-11555 | a single value stands alone, several stand in brackets with comma and blank between |
| ConfigValues.HandleSecondaryArray | UltimatePhobia/CLI11.hpp:1317-1327 | a text in brackets has every character behind the first doubled |
| ConfigValues.ProcessQuotedString | UltimatePhobia/CLI11.hpp:1330-1356 | which quotes are stripped and unescaped, with the error case |
| ConfigValues.AddResultInPlace | UltimatePhobia/CLI11.hpp:7128-7184 | results are appended to what was there: an undoubled text, the items of an array, or pieces at the delimiter |
| ConfigValues.UndoubleLoop | UltimatePhobia/CLI11.hpp:7136-7152 | the pairwise loop undoubles or refuses |
| ConfigRoundTrip.ArgumentStandsFor | UltimatePhobia/CLI11.hpp:11456-11526 | whichever branch prints an argument, the printed form can be split off and stripped to that argument |
| ConfigRoundTrip.SecondaryArrayUndone | UltimatePhobia/CLI11.hpp:7128-7152 | adding a result undoes the doubling of array-like texts, for every text and kind of option |
| ConfigRoundTrip.BracketedStaysWhole | UltimatePhobia/CLI11.hpp:11808-11811 | cutting a printed list at a comment mark loses nothing, whatever marks its values hold |
| ConfigRoundTrip.ValuesRoundTrip | UltimatePhobia/CLI11.hpp:11884-11912 | reading a printed list of byte strings gives back exactly that list, outside the multi-line literal form |
| Sections.ConfigReader.CloseLevels | UltimatePhobia/CLI11.hpp:11589-11592 | the loop repeats the last item with ever fewer levels |
| Sections.ConfigReader.RejoinLevels | UltimatePhobia/CLI11.hpp:11594-11613 | the last close is taken back if it closed a parent of the new section, and otherwise levels are closed down to the shared ones |
| Sections.ConfigReader.CheckParentSegments | UltimatePhobia/CLI11.hpp:11582-11629 | the emitted items as a function of what was emitted and the new path |
| Sections.ConfigReader.ReadLine | UltimatePhobia/CLI11.hpp:11748-11773 | what a section header or a key emits |
| Sections.ConfigReader.EndOfFile | UltimatePhobia/CLI11.hpp:11948-11958 | the closes at the end of the file |
| Sections.FromConfig | UltimatePhobia/CLI11.hpp:11678-11960 | the whole reader emits what the specification says, line by line |
| Sections.CheckParentsOpens | UltimatePhobia/CLI11.hpp:11582-11629 | after leaving any section, or with none open, the new section ends up open without a mismatch |
| Sections.SectionsNest | UltimatePhobia/CLI11.hpp:11582-11629 | without a return to the default section the events of a whole file replay without mismatch and leave nothing open |
| Sections.NestsExactly | UltimatePhobia/CLI11.hpp:11748-11773 | the events are well nested if and only if no multi-level section is left for the default section and followed by a default key or the end |
| Sections.ReturnToDefaultStrands | UltimatePhobia/CLI11.hpp:11748-11773 | the smallest file whose events do not nest |
| Sections.EmittedItems | UltimatePhobia/CLI11.hpp:11930-11946 | apart from the events, what is emitted is the keys in order, each under its own section, although events are taken back |
| Paragraphs.StreamOutAsParagraph | UltimatePhobia/CLI11.hpp:1382-1416 | both loops write the wrapped text, line by line and word by word |
| Paragraphs.ParagraphKeepsWords | UltimatePhobia/CLI11.hpp:1382-1416 | with a white-space prefix the output has the words of the text, in order |
| Paragraphs.ParagraphFitsWidth | UltimatePhobia/CLI11.hpp:1382-1416 | every line behind its prefix is at most as wide as the paragraph or a single word |
| Paragraphs.WrapIsStack | UltimatePhobia/CLI11.hpp:1398-1411 | the characters written word by word are the filled lines with the prefix between them |
| Paragraphs.BreaksAreNeeded | UltimatePhobia/CLI11.hpp:1398-1411 | a line is only broken where the next word would not have fitted |
| CheckedArithmetic.MultiplyIsExact | UltimatePhobia/CLI11.hpp:4222-4250 | for every signed and unsigned width the product is stored if and only if it can be represented, and otherwise the operand stays |
| Options.OptionObject.AddResult | UltimatePhobia/CLI11.hpp:6868-6878 | results are appended, counted, and the option goes back to parsing |
| Options.OptionObject.AddResults | UltimatePhobia/CLI11.hpp:6880-6886 | the same for a list |
| Options.OptionObject.ClearResults | UltimatePhobia/CLI11.hpp:6425-6429 | everything parsed is forgotten |
| Options.OptionObject.ValidateResults | UltimatePhobia/CLI11.hpp:6987-7025 | each result is validated at its index, up to the first failure |
| Options.OptionObject.RunCallbackNow | UltimatePhobia/CLI11.hpp:6722-6753 | validation, reduction and callback, each only if due, with every exception |
| Options.ReductionKeepsLast | UltimatePhobia/CLI11.hpp:7037-7055 | a fixed-size option under TakeLast (or Reverse) ends up with its last results, and the mark for an empty container |
| Options.ValidatedIsKeptExactly | UltimatePhobia/CLI11.hpp:6987-7025 | the results validated at an index that is not negative are exactly those that are kept, if and only if an item is expected or there are none |
| Options.KeptIsValidatedInPlace | UltimatePhobia/CLI11.hpp:6987-7025 | the k-th kept result is validated at index k, or at its place within the type |
| Options.KeptResultsWereValidated | UltimatePhobia/CLI11.hpp:7027-7055 | the k-th result that counts is what its validators made of it at that index |
| Options.CallbackSeesValidatedResults | UltimatePhobia/CLI11.hpp:6722-6753 | in every series of additions, clearings and callbacks, no callback sees results added since the last validation |
| Options.CallbackSeesReducedResults | UltimatePhobia/CLI11.hpp:6722-6753 | what a callback sees is the validated results, reduced |
| FlatParser.StepShrinks | UltimatePhobia/CLI11.hpp:10502-10549 | every round of the loop lowers the sum of argument lengths plus one, although bundles are pushed back |
| FlatParser.FlagStep | UltimatePhobia/CLI11.hpp:10784-11050 | one round on a bundle does what its first flag does alone and leaves the rest of the bundle |
| FlatParser.BundleIsSeparateFlags | UltimatePhobia/CLI11.hpp:10784-11050 | a bundle of any number of known plain flags has the same effect as the separate flags, on everything, including errors |
| FlatParser.ValueInPlace | UltimatePhobia/CLI11.hpp:10972-11000 | a value given with the name is taken like one given as the next argument |
| FlatParser.SpellingsAgree | UltimatePhobia/CLI11.hpp:10784-11050 | `--name=value`, `--name value`, `-cvalue` and `-c value` have the same effect, whatever the value looks like |
| FlatParser.RequiredComeFirst | UltimatePhobia/CLI11.hpp:10573-10620 | with positionals at the end and no more arguments left than are required, a required positional below its minimum that accepts the text is chosen whenever there is one; otherwise the first open one is |
| FlatParser.DoubleDashEndsOptions | UltimatePhobia/CLI11.hpp:10502-10521 | behind `--` no option but positional ones changes, and without those everything is left over in order |
| FlatApp.App.ParseKnownOption | UltimatePhobia/CLI11.hpp:10947-11050 | the object steps through first value, minimum, optional values and completion as specified |
| FlatApp.App.ParseArgument | UltimatePhobia/CLI11.hpp:10784-10945 | finding the option, and what happens to one that is not known |
| FlatApp.App.ParsePositionalArgument | UltimatePhobia/CLI11.hpp:10573-10705 | which positional option takes an argument, and what is left over |
| FlatApp.App.ParseNext | UltimatePhobia/CLI11.hpp:10502-10549 | one round of the loop on the object's fields |
| FlatApp.App.Parse | UltimatePhobia/CLI11.hpp:10313-10329 | the loop ends and computes the specified final state |
| FlatApp.App.ProcessCallbacks | UltimatePhobia/CLI11.hpp:10028-10034 | one pass for one priority |
| FlatApp.App.Process | UltimatePhobia/CLI11.hpp:10195-10232 | the passes for all priorities, and the order of the callbacks |
| Callbacks.CallbacksRunOnceInOrder | UltimatePhobia/CLI11.hpp:10195-10232 | exactly the due options run, each once, in the stable order of their priorities; nothing else changes and none is due again |
| FlatApp.App.ParseAndProcess | UltimatePhobia/CLI11.hpp:10313-10326 | the loop and then the callbacks, with the order in which those ran |
| FlatRuns.ParsingGrows | UltimatePhobia/CLI11.hpp:10502-10549 | whatever the arguments are, parsing keeps every option free of unvalidated hand-overs, forgets nothing that was handed over, and runs no callback that is not triggered by parsing |
| FlatRuns.CallbacksHandedOver | UltimatePhobia/CLI11.hpp:10313-10326 | over whole runs no callback sees unvalidated results, every due one runs exactly once behind the loop and none stays due, and one that is neither triggered nor forced runs once in all if there are results and never otherwise |
| Callbacks.RunHandsOver | UltimatePhobia/CLI11.hpp:6722-6753 | an option with results hands them over once, validated |
| GameHooks.WriteProcessMemory | UltimatePhobia/game_hook.cpp:101-105 | memory is patched at the target and nowhere else |
| GameHooks.GameHook.constructor | UltimatePhobia/game_hook.cpp:19-27 | the old code is saved and the trampoline written |
| GameHooks.GameHook.Move | UltimatePhobia/game_hook.hpp:39 | the new object takes over and the old one counts as released |
| GameHooks.GameHook.Release | UltimatePhobia/game_hook.cpp:101-113 | the saved code is written back |
| GameHooks.GameHook.Restore | UltimatePhobia/game_hook.cpp:115-133 | the trampoline is written again |
| GameHooks.GameHook.Destroy | UltimatePhobia/game_hook.hpp:34-37 | an unreleased hook is released |
| GameHooks.GameHook.GetHookAt | UltimatePhobia/game_hook.cpp:68-99 | where a trampoline leads, or null |
| GameHooks.GameHook.SafeCreate | UltimatePhobia/game_hook.cpp:42-54 | the old hook goes first; a hooked target is refused; otherwise one new live hook |
| GameHooks.GameHookRelease.constructor | UltimatePhobia/game_hook.cpp:135-142 | a live hook is lifted, a released one is left alone |
| GameHooks.GameHookRelease.End | UltimatePhobia/game_hook.cpp:144-147 | the hook is back if and only if this guard lifted it |
| GameHooks.GameHookPool.Add | UltimatePhobia/game_hook.hpp:74-83 | at most one hook for each address; a refused one leaves code and pool as they were |
| GameHooks.GameHookPool.Get | UltimatePhobia/game_hook.hpp:84-90 | the hook of an address, if there is one |
| GameHooks.GameHookPool.Remove | UltimatePhobia/game_hook.hpp:91-95 | exactly that hook is gone |
| GameHooks.TrampolineIsFound | UltimatePhobia/game_hook.cpp:68-99 | every trampoline that leads somewhere is found, with its destination |
| GameHooks.StepKeeps | UltimatePhobia/game_hook.cpp:19-147 | every operation keeps the invariant, in any order, with guards and moved objects alive |
| GameHooks.CodeIsNeverLost | UltimatePhobia/game_hook.cpp:19-147 | in every run saved code is pristine, memory differs only under live unreleased hooks, and is pristine once none is left |
| GameHooks.GuardLiftsAndRestores | UltimatePhobia/game_hook.cpp:135-147 | inside a guard the code is pristine, and after it everything is as before |
| GameHooks.CreatedHookIsFound | UltimatePhobia/game_hook.cpp:42-54 | a created hook is found, so a second one is refused |
| Handles.HandleCollection.AddObject | UltimatePhobia/ffi_interface.cpp:30-44 | the next free handle, with the probe loop and the refusal near the end of the range |
| Handles.HandleCollection.GetObject | UltimatePhobia/ffi_interface.cpp:45-52 | what a handle resolves to |
| Handles.HandleCollection.DropObject | UltimatePhobia/ffi_interface.cpp:54-59 | the entry goes, and the counter steps back for the last handle |
| Handles.AddIsFresh | UltimatePhobia/ffi_interface.cpp:30-44 | in a compact table the probe loop never iterates and the new handle is fresh, positive and resolves |
| Handles.DropKeepsCompact | UltimatePhobia/ffi_interface.cpp:54-59 | a drop keeps the table compact unless it is the null handle with the counter at zero, and touches no other handle |
| Handles.DroppingNullLosesAnObject | UltimatePhobia/ffi_interface.cpp:54-59 | after that drop the next object gets the null handle |
| Handles.HandlesStayGood | UltimatePhobia/ffi_interface.cpp:25-64 | over whole runs a handle that is not dropped keeps resolving to its object |
| Handles.AddAfterRun | UltimatePhobia/ffi_interface.cpp:25-64 | after every run from the empty table all handles lie in 1 to the counter and the next one is fresh |
| CurrentMod.Runtime.SimpleCall | UltimatePhobia/ffi_loader.cpp:48-51 | the mod becomes current, then its code runs |
| CurrentMod.Runtime.CallGame | UltimatePhobia/ffi_interface.cpp:871-911 | arguments are taken off, the current mod is saved and restored, unless a C++ exception passes through `call3` |
| CurrentMod.Runtime.FfiHook | UltimatePhobia/ffi_interface.cpp:982-1027 | arguments are replaced, the callback runs, everything is caught, and a panic unloads the mod |
| CurrentMod.ModActsAsFrame | UltimatePhobia/ffi_interface.cpp:843-970 | shared globals act like a frame of its own for each piece of mod code |
| CurrentMod.GlobalsActAsFrames | UltimatePhobia/ffi_interface.cpp:843-1027 | for every tree of calls, hooks, exceptions and panics, `getCurrent()` is always the mod whose code runs, and calls pass exactly their own arguments |
| CurrentMod.DisciplineHoldsExactly | UltimatePhobia/ffi_interface.cpp:673-675 | with class and object initialisers it holds if and only if none that returns to a mod leaves another mod current: the mod of the last hook it fired itself, or, when an exception from game code cut that hook short, the mod that the throwing game code left behind |
| CurrentMod.LastHookStays | UltimatePhobia/ffi_interface.cpp:982-1027 | when no hook that game code fires itself is cut short by an exception from game code, the mod that stays current is that of the last of these hooks, or the one before if there is none |
| CurrentMod.UncutDiscipline | UltimatePhobia/ffi_interface.cpp:673-675 | when no hook is cut short, the discipline holds if and only if every initialiser that returns to a mod fired no hook itself or a hook of that mod last |
| CurrentMod.ClassInitBreaksDiscipline | UltimatePhobia/ffi_interface.cpp:673-675 | the smallest tree in which `getCurrent()` is wrong |
| CurrentMod.ExceptionBreaksDiscipline | UltimatePhobia/ffi_interface.cpp:673-675 | an exception through a hook makes it wrong although the last hook is one of the same mod |
| Playbacks.Playback.DataCallback | SteamAudioImpl/playback.cpp:113-148 | delay, end of buffer, snippet, position and wrap for one callback |
| Playbacks.Playback.CopySnippet | SteamAudioImpl/playback.cpp:132-148 | the nested loops fill every channel and sample, wrapping or padding with silence |
| Playbacks.FrameSizesDoNotMatter | SteamAudioImpl/playback.cpp:113-206 | for any frame sizes what is heard is the start of one stream, and a looping position stays inside the buffer |
| Playbacks.LandingIsDelayed | SteamAudioImpl/playback.cpp:114-118 | a delay that ends on a callback boundary shifts the stream by exactly that much |
| Playbacks.NotLandingIsSilent | SteamAudioImpl/playback.cpp:114-118 | a delay that is overstepped wraps the unsigned counter, and nothing is heard |
| Playbacks.DelayIsExact | SteamAudioImpl/playback.cpp:114-118 | a delayed playback is heard on time if and only if a callback boundary falls on the end of its delay |
| Playbacks.OversteppedDelayIsSilent | SteamAudioImpl/playback.cpp:114-118 | a delay of three samples and callbacks of four: nothing is heard, although the stream is not silent |
| Rooms.SignalingServer.CleanupExpiredRooms | signaling.py:35-45 | exactly the rooms whose expiry time has come are deleted |
| Rooms.SignalingServer.PutRoom | signaling.py:62-71 | the room is replaced by an empty one with a new lease |
| Rooms.SignalingServer.JoinRoom | signaling.py:157-175 | a new address is appended once, the lease renewed, and the host returned |
| Rooms.SignalingServer.GetRoom | signaling.py:48-59 | a poll answers with a copy, or with nothing for an unknown room |
| Rooms.SignalingServer.HandleJoin | signaling.py:145-177 | cleanup, then the join |
| Rooms.NoDuplicateClients | signaling.py:163-169 | in every interleaving no room holds the same address twice, under Python equality |
| Rooms.PollsExtend | signaling.py:48-59 | a poll's list is a prefix of any later poll's list of the same room |
| Rooms.JoinIsSeen | signaling.py:145-177 | a client that joined is in every later poll of that room |
| Rooms.RemovedExactlyWhenExpired | signaling.py:35-45 | a room is removed exactly by a cleanup whose clock reading has reached its expiry time |
| Rooms.LeaseIsKept | signaling.py:35-71 | in every run a room stays until its expiry time as of any moment, unless it is registered again |
| TabCompletion.TraverseTokens | UltimatePhobia/console.cpp:167-198 | the loop resolves the command, the positionals given and a pending flag value |
| TabCompletion.ComputeCommonPrefix | UltimatePhobia/console.cpp:249-258 | the nested loops compute the folded common prefix |
| TabCompletion.OnTab | UltimatePhobia/console.cpp:150-266 | the result and the new input |
| TabCompletion.MatchesAreTheCandidates | UltimatePhobia/console.cpp:200-229 | the matches are exactly the candidates that start with the typed word |
| TabCompletion.SortUniqueSorts | UltimatePhobia/console.cpp:234-235 | the matches end up strictly sorted |
| TabCompletion.CommonPrefixIsLongest | UltimatePhobia/console.cpp:249-258 | the texts that start the result are exactly those that start all matches |
| TabCompletion.TabExtendsExactly | UltimatePhobia/console.cpp:150-266 | completion leaves the input alone when it returns false, and otherwise keeps it as a prefix if and only if it does not end in white space other than a blank behind a word |
| TabCompletion.TabBehindTabBreaks | UltimatePhobia/console.cpp:160-240 | `a` and a tab, with one command `ab`, becomes `aab`: the completion is written behind the typed word |
| TabCompletion.TypedWordBecomesCommonPrefix | UltimatePhobia/console.cpp:249-263 | with several matches the typed word becomes their longest common prefix |

## Left out

- CLI11 multi-line literals: printed by the model, but reading them back over several lines is not modelled, and such a value that starts and ends with a quote would be unquoted again.
- CLI11 configuration files: comments and key names at line level, quoted key names, values over several lines, and custom quote, bracket and separator characters.
- Sections.ConfigReader.ReadLine: keys are not split at the parent separator, a repeated key is merged only with the item right before it (the default), and inputs and `maximumLayers` are left out.
- CLI11 subcommands, option groups, dot notation, Windows-style and non-standard options, case-insensitive names, environment variables, help flags and requirement checks: the parser is flat.
- FlatParser.SpellingsAgree: `get_flag_value` and the text recorded for a positional flag are arbitrary functions.
- Options.CallbackSeesValidatedResults: an exception ends the series of actions.
- Options.OptionObject.ValidateResults: texts that validators changed before the one that failed are not reported.
- Options.OptionObject.RunCallbackNow: after an exception nothing more is said about the option.
- FlatApp.App.Parse: after an exception nothing more is said about the application.
- FlatApp.App.ParseAndProcess: after an exception nothing more is said about the application; the check for left-over arguments at the very end is not modelled.
- FlatApp.App.ParseKnownOption: after an exception nothing more is said about the application.
- FlatApp.App.ParseArgument: subcommands, option groups, dot notation and non-standard names.
- FlatApp.App.ParsePositionalArgument: subcommands, option groups and fallthrough.
- FlatApp.App.ParseNext: the classifiers for subcommands and Windows-style options.
- FlatApp.App.Process: help flags, configuration file, environment and requirement checks.
- ConfigValues.IniJoin: separator, bracket, quote and literal characters other than the default ones.
- ConfigValues.ProcessQuotedString: separator, bracket, quote and literal characters other than the default ones.
- Sections.FromConfig: lines come as headers and keys; values, comments and limits are left out.
- GameHooks.WriteProcessMemory: failed and short writes.
- GameHooks.GameHook.Release: failed and short writes.
- GameHooks.GameHook.Restore: failed and short writes.
- `GameHook::unsafeCreate` and `safeCreatePtr`, unmapped targets and the assembly trampoline.
- GameHooks.GameHookPool.Remove: when the last owner of a shared hook destroys it is not modelled; `Destroy` is a call of its own.
- Handles.HandleCollection.AddObject: 32-bit wrap-around of the counter at the end of the handle range is outside, as the precondition says.
- Handles.AddIsFresh: 32-bit wrap-around of the counter at the end of the handle range is outside, as the precondition says.
- CurrentMod.Runtime.CallGame: return values and error texts.
- CurrentMod.Runtime.FfiHook: return values, the early exits for an unknown method, and the hook that is lifted around the callback.
- CurrentMod: a mod that catches a C++ exception in its own code, arguments read back by index, the managed exceptions that `runtimeObjectInitException` turns into a result, and the GC handle around struct results.
- Playbacks: binaural and direct effects, mixing, up- and downmixing, floating-point rounding, and changes of volume or `loop` during a series of callbacks.
- Rooms.SignalingServer.GetRoom: this is the locked section of `get_room`; the cleanup before it is a step of its own.
- Rooms.SignalingServer.HandleJoin: a join with no other request between its two locked sections; the lemmas about runs cover all interleavings.
- Rooms.NoDuplicateClients: addresses that are JSON floats, lists or objects.
- Rooms: HTTP and JSON decoding, and malformed requests.
- TabCompletion.OnTab: the printed suggestions, and names that match regardless of case or through an environment variable.
- IL2CPP wrappers, native loaders, the socket client, DX11, ImGui, crash handling, logging and the code generators: foreign calls or plumbing.
