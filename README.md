# rstpad core, modelled in Dafny

rstpad is a reStructuredText editor written in C++ with Qt. It renders its preview by calling
docutils in an embedded Python 2 interpreter. This project models the parts of rstpad that carry
its logic, and proves properties of that model:

- **The Python bridge** (`bridge.dfy`, `converter.dfy`, `values.dfy`, `exception.dfy`).
  - Conversion of Qt values (`QVariant`) to Python objects and back.
  - Calling a module's function and evaluating code, with the three exception-handling modes
    (store, print, ignore).
  - The exception record the bridge keeps.
  - The interpreter is a parameter: a `Runtime` value holding the answers of the C-API calls the
    bridge makes. The interpreter's error indicator is part of the modelled state.
- **The renderer** (`renderer.dfy`, `html.dfy`).
  - Scheduling: the delay timer, at most one job in flight, and the newest pending input.
  - The render job, which calls `docutils.core.publish_string`.
  - The HTML page shown for a Python exception, with its HTML escaping.
- **The configuration store** (`config.dfy`).
  - Lazy initialisation, with a guard against re-entry.
  - Defaults, merging the file's values, `set` and `save`.
- **The editor's text manipulator** (`editor.dfy`, `linetext.dfy`, `document.dfy`).
  - The document is a sequence of blocks (lines). The cursor has a position and an anchor.
  - Indent and unindent, a new line's indentation, trimming trailing whitespace, the single blank
    line at the end, formatting a selection, headings, empty lines around a selection, and going
    to a line.
  - `document.dfy` models a Qt text document: positions, `findBlock`, the text with U+2029 between
    blocks, and how inserted text is cut into blocks.
- **The main window's file logic** (`window.dfy`).
  - The recent-files list.
  - The window title, the status bar and enabling Save.
  - The pre-save processing and the saved text.

`wrappers.dfy` and `strings.dfy` hold shared helpers:

- `Option`;
- UTF-8 and UTF-16 lengths and Latin-1 decoding;
- `QString::repeated`;
- a string order used to walk map keys in order.

The code does the following, and the model follows it:

- `clearException` empties only the bridge's own exception slot. It does not clear the
  interpreter's error indicator.
- When the function lookup in `doCallModuleFunction` fails, it returns without handling the error,
  so the indicator stays set (`Bridge.CallModuleFunctionOutcomes`).
- A returned long outside the C long range converts to -1 and leaves OverflowError in the
  indicator, which nothing checks (`Bridge.ReturnedLongOverflows`).
- `PyErr_Print` clears the indicator. So a call made in print mode also leaves no error behind.
- The pre-save steps run in a fixed order: the blank line at the end first, then trimming.
  `Window.PreSaveBoth` proves that the order does not change the result.

## Model

| member | source | states |
|---|---|---|
| Exceptions.DefaultException | src/PythonException.cpp:5-7 | the default record is null and its type, message and trace are empty |
| Exceptions.MakeException | src/PythonException.cpp:9-15 | the three-argument record is non-null and its accessors give back exactly its arguments |
| Exceptions.AccessorsDetermineRecord | src/PythonException.cpp:17-35 | two records whose accessors all agree are the same record |
| Exceptions.ConstructorInvertsAccessors | src/PythonException.cpp:9-35 | every non-null record is rebuilt by the constructor from its own accessors |
| Values.WrapInt64 | src/PythonBridge.cpp:168-178 | the qint64 reading of an integer lies in 64-bit range, agrees with it modulo 2^64, and is the integer itself when it fits |
| Values.ToLongLong | src/PythonBridge.cpp:178 | toLongLong() of every integer kind lies in 64-bit range and keeps a value that fits |
| Values.VariantToStringList | src/UI/MainWindow.cpp:192 | toStringList() of a list has one string per element |
| Converter.ToPython | src/PythonBridge.cpp:156-234 | variantToPythonObject, with map keys converted by their full text (the corrected key); its properties are the lemmas below, Converter.RoundTrip first |
| Converter.ListToPythonTuple | src/PythonBridge.cpp:236-246 | listToPythonTuple; Converter.SequencesKeepOrder states that each item is converted, in order |
| Converter.ListToPythonList | src/PythonBridge.cpp:248-258 | listToPythonList; Converter.SequencesKeepOrder states that each item is converted, in order |
| Converter.MapToPythonDict | src/PythonBridge.cpp:260-273 | mapToPythonDict with the corrected key; Converter.MapRoundTrip states that the map comes back |
| Converter.DictKeyAsWritten | src/PythonBridge.cpp:267 | the key as written; Converter.AsWrittenKeyTruncates and Converter.AsWrittenKeyExactForAscii state what it gives |
| Converter.ToVariant | src/PythonBridge.cpp:275-357 | pythonObjectToVariant; Converter.RoundTrip and the lemmas after it state what it gives back |
| Converter.Overflows | src/PythonBridge.cpp:288-291 | whether a conversion meets a long outside the C long range, which leaves OverflowError set; Converter.LongOutOfRange and Converter.HostValuesNeverOverflow state when |
| Converter.RoundTrip | src/PythonBridge.cpp:156-357 | bools, 64-bit integers, doubles, strings, byte arrays and nested lists and maps of them come back unchanged after a trip to Python and back, through the converter with the corrected map key |
| Converter.MapRoundTrip | src/PythonBridge.cpp:260-273 | a map whose values round-trip comes back unchanged, keys included, once map keys are converted by their full text (the corrected key) |
| Converter.DictOfKeysPrefix | src/PythonBridge.cpp:335-352 | reading back the first n dictionary entries built from a map gives the map restricted to those n keys |
| Converter.IntegersTravelAsLongLong | src/PythonBridge.cpp:168-178 | every integer kind goes out as a Python int of its toLongLong() value and comes back as a qint64 of that value |
| Converter.UnsupportedBecomeNone | src/PythonBridge.cpp:210-232 | invalid, void, void-pointer and unknown variants become None, which comes back invalid |
| Converter.UnsupportedBecomeInvalid | src/PythonBridge.cpp:275-357 | a null pointer, None and unsupported objects become an invalid variant |
| Converter.SequencesKeepOrder | src/PythonBridge.cpp:236-258 | lists and argument tuples have one converted element per item, in order |
| Converter.TuplesAndListsBecomeLists | src/PythonBridge.cpp:315-334 | tuples and lists both come back as a list of the converted elements, in order |
| Converter.EmptyContainers | src/PythonBridge.cpp:236-273 | no items give the empty tuple; an empty map gives the empty dictionary |
| Converter.StringListComesBackAsList | src/PythonBridge.cpp:215-218 | a string list goes out as a list of unicode objects and comes back as a list of strings |
| Converter.HashComesBackAsMap | src/PythonBridge.cpp:221-224 | a hash goes out as a dictionary and comes back as a map with the same entries |
| Converter.CharComesBackAsString | src/PythonBridge.cpp:186-193 | a character goes out as a one-byte str, empty for NUL and for characters outside Latin-1, and comes back a string |
| Converter.DictKeysAreKeyStrings | src/PythonBridge.cpp:335-352 | a key is in the converted map exactly when some dictionary key converts to that text |
| Converter.DictLastEntryWins | src/PythonBridge.cpp:335-352 | the converted map holds, for a key, the value of the last entry whose key has that text |
| Converter.AsWrittenKeyTruncates | src/PythonBridge.cpp:267 | the key "éa" becomes "é" and the key "é" cannot be decoded: the key conversion as written loses text |
| Converter.AsWrittenKeyExactForAscii | src/PythonBridge.cpp:267 | for ASCII keys the key conversion as written gives the full key |
| Converter.AsciiPrefixDecodes | src/PythonBridge.cpp:267 | an ASCII key has as many UTF-16 units as characters and decodes whole |
| Converter.LongOutOfRange | src/PythonBridge.cpp:288-291 | a long outside the C long range comes back as -1 and overflows; one inside comes back as itself |
| Converter.EntriesOverflowSomewhere | src/PythonBridge.cpp:335-352 | converting a dictionary overflows exactly when converting one of its keys or values does |
| Converter.HostValuesNeverOverflow | src/PythonBridge.cpp:156-357 | nothing the host sends overflows on the way back, since integers go out as Python ints |
| Converter.HostMapNeverOverflows | src/PythonBridge.cpp:260-273 | a dictionary built from a host map does not overflow on the way back |
| Bridge.PythonBridge.constructor | src/PythonBridge.cpp:9-20 | a new bridge holds no exception, no error and no printed error |
| Bridge.PythonBridge.ClearException | src/PythonBridge.cpp:374-380 | the exception slot is emptied and nothing else changes |
| Bridge.PythonBridge.HasException | src/PythonBridge.cpp:99-102 | whether the slot holds a record; Bridge.CallModuleFunctionOutcomes and Bridge.NoRaiseNoException state when it does |
| Bridge.PythonBridge.CurrentException | src/PythonBridge.cpp:104-107 | the record in the slot; Bridge.StoredRecordDescribesError states what it holds after a stored error |
| Bridge.StrText | src/PythonBridge.cpp:359-372 | pythonObjectToString on the result of str(); Bridge.StrTextReadsBack states what it reads |
| Bridge.PythonBridge.HandleException | src/PythonBridge.cpp:382-402 | returns true exactly when an error is set; the new state is the handled state for that error and mode; without an error nothing changes |
| Bridge.PythonBridge.StoreException | src/PythonBridge.cpp:404-444 | the slot receives the captured record of the pending error, its traceback formatted by a nested call |
| Bridge.PythonBridge.DoCallFunction | src/PythonBridge.cpp:134-154 | the result and new state are those of the function call specification: a null or non-callable function is not called, and a returned long outside the C long range leaves OverflowError set |
| Bridge.PythonBridge.DoCallModuleFunction | src/PythonBridge.cpp:109-132 | the result and new state are those of import, lookup and call, each failure handled in the given mode |
| Bridge.PythonBridge.CallModuleFunction | src/PythonBridge.cpp:47-66 | the slot is cleared and the arguments go out as a tuple; the result and state follow the module call specification |
| Bridge.PythonBridge.Eval | src/PythonBridge.cpp:68-97 | the new state is the specified one: clear the slot, compile, and run only code that compiled, with the locals as a dictionary |
| Bridge.HandlingModes | src/PythonBridge.cpp:382-402 | every mode clears the indicator; only store writes the slot, with the captured record; print records the error as printed; ignore changes nothing else |
| Bridge.StoredRecordDescribesError | src/PythonBridge.cpp:382-444 | handling an error in store mode clears the indicator and leaves a non-null record whose type and message are str() of the error's type name and value, whose trace is empty without a traceback (nothing printed then) and, when format_tb returns a list of str lines (as Python 2 does) or unicode lines, is the lines' texts joined, a str line read through Latin-1 |
| Bridge.StrTextReadsBack | src/PythonBridge.cpp:359-372 | a str result reads as its Latin-1 text, a unicode result as itself, and a missing one as empty |
| Bridge.CallModuleFunctionOutcomes | src/PythonBridge.cpp:47-132 | the slot is filled exactly in store mode after a failed import or call; a failed lookup leaves the indicator set and returns invalid; a returned call returns the converted result and leaves the state as cleared, with OverflowError set exactly when the conversion overflows |
| Bridge.ReturnedLongOverflows | src/PythonBridge.cpp:134-145 | a function returning a long outside the C long range gives -1, leaves OverflowError set and stores no exception |
| Bridge.NoRaiseNoException | src/PythonBridge.cpp:47-66 | a call whose import and call do not raise leaves no stored exception |
| Bridge.ArgumentsBecomeTuple | src/PythonBridge.cpp:55 | the argument tuple has one converted element per argument, in order, and is empty for no arguments |
| Bridge.LocalsBecomeDict | src/PythonBridge.cpp:80 | the shortcut for empty locals builds the same dictionary as the converter |
| Bridge.EvalOutcomes | src/PythonBridge.cpp:68-97 | code that does not compile is handled like any error and never runs; compiled code is run with the locals, and only an error it raises is handled |
| Bridge.NestedCallIgnoresEval | src/PythonBridge.cpp:404-444 | handling an error never evaluates code |
| Bridge.TraceJoinsLines | src/PythonBridge.cpp:433-440 | when format_tb returns a list of str or unicode lines, the trace is their texts joined: a str line's Latin-1 text, a unicode line as it is |
| Bridge.TextListReadsBack | src/PythonBridge.cpp:295-334 | a list of str or unicode lines reads back through toStringList as the lines' texts, in order |
| Bridge.StrListReadsBack | src/PythonBridge.cpp:295-297 | a list of str lines, what Python 2's format_tb returns, reads back as each line's Latin-1 text |
| Bridge.UnicodeListReadsBack | src/PythonBridge.cpp:315-334 | a list of unicode lines reads back as exactly those strings |
| Html.HtmlEscape | src/RstRenderer.cpp:107-121 | QString::toHtmlEscaped; Html.UnescapeInvertsEscape and Html.EscapedHasNoMarkup state its properties |
| Html.UnescapeInvertsEscape | src/RstRenderer.cpp:107-121 | unescaping the escaped text gives the text back |
| Html.EscapedHasNoMarkup | src/RstRenderer.cpp:107-121 | escaped text holds no '<', '>' or '"' |
| Renderer.ExceptionTextIsInert | src/RstRenderer.cpp:107-121 | every '<', '>' and '"' on the exception page belongs to the fixed template |
| Renderer.ExceptionFieldsReadBack | src/RstRenderer.cpp:107-121 | reading the page back, the text between the message block's tag and the next tag unescapes to the type, ": " and the message, and the trace block's content to the trace |
| Renderer.ReadAssembledPage | src/RstRenderer.cpp:107-121 | a page whose two fields hold no '<', placed before pieces that open with a tag, reads back as those fields unescaped |
| Renderer.TextBeforeTag | src/RstRenderer.cpp:115-116 | the text read is a prefix without '<' that stops at the first '<' |
| Renderer.TextBeforeTagOf | src/RstRenderer.cpp:115-116 | text without '<' followed by a tag is read exactly up to that tag |
| Renderer.ReadRestOf | src/RstRenderer.cpp:115-118 | after the page's head, the message line and the trace block read back as their unescaped texts |
| Renderer.EscapeAroundSeparator | src/RstRenderer.cpp:115 | escaping the "type: message" line escapes the type and the message and keeps ": " |
| Renderer.MessageLineEscapes | src/RstRenderer.cpp:115 | the message line is the escaped "type: message" and holds no '<' |
| Renderer.TypeAndMessageRunTogether | src/RstRenderer.cpp:115 | exceptions with types x + ": " + y and x, and messages z and y + ": " + z, differ but give the same page |
| Html.EscapeConcat | src/RstRenderer.cpp:115-116 | escaping distributes over concatenation |
| Renderer.ExceptionDocument | src/RstRenderer.cpp:107-121 | the exception page; Renderer.ExceptionTextIsInert and Renderer.ExceptionFieldsReadBack state its properties |
| Renderer.RenderStep | src/RstRenderer.cpp:60-105 | render(): start a job only when none runs; Renderer.RenderStartsOnlyWhenIdle states it |
| Renderer.ScheduleStep | src/RstRenderer.cpp:25-37 | schedule() with the stale pending input dropped; Renderer.StepsKeepValid, Renderer.ImmediateSchedule and Renderer.DelayedScheduleRecordsInput state its properties |
| Renderer.ScheduleStepAsWritten | src/RstRenderer.cpp:25-37 | schedule() as written; Renderer.StaleInputRenderedLast shows what it gets wrong |
| Renderer.RescheduleStep | src/RstRenderer.cpp:39-48 | reschedule(); Renderer.FinishPicksUpPending states it |
| Renderer.TimerStep | src/RstRenderer.cpp:123-128 | timerTriggered() rendering only a pending input; Renderer.StepsKeepValid states that it keeps the invariant |
| Renderer.TimerStepAsWritten | src/RstRenderer.cpp:123-128 | timerTriggered() as written; Renderer.EmptyInputRenderedLast shows what it gets wrong |
| Renderer.FinishStep | src/RstRenderer.cpp:130-147 | threadFinished(); Renderer.FinishPicksUpPending and Renderer.StepsKeepValid state its properties |
| Renderer.JobOutcomes | src/RstRenderer.cpp:68-95 | a failed import or call yields the exception page; a missing function yields no bytes; a returned unicode object yields its UTF-8 bytes |
| Renderer.PublishArgumentsCarryInput | src/RstRenderer.cpp:69-84 | publish_string gets twelve arguments: the input first as unicode, the standalone reader, the restructuredtext parser, the html5 writer, the rest None |
| Renderer.InitialValid | src/RstRenderer.cpp:8-15 | the new renderer satisfies the scheduler invariant |
| Renderer.RenderStartsOnlyWhenIdle | src/RstRenderer.cpp:60-105 | render() starts a job exactly when none is running, records the input as started, and otherwise changes nothing |
| Renderer.StepsKeepValid | src/RstRenderer.cpp:25-147 | schedule, setDelay, the timer and a finishing job all keep the invariant: one job in flight, nothing stranded, the newest input rendered last |
| Renderer.DelayedScheduleRecordsInput | src/RstRenderer.cpp:27-30 | with a delay, schedule only records the input and restarts the timer, as written and as corrected |
| Renderer.ImmediateSchedule | src/RstRenderer.cpp:31-36 | without a delay an idle renderer starts the input at once; a busy one keeps it pending |
| Renderer.FinishPicksUpPending | src/RstRenderer.cpp:130-147 | a finished job hands the pending input to the timer when there is a delay, and to a new job otherwise |
| Renderer.DelayedBurstKeepsNewest | src/RstRenderer.cpp:25-30 | edits while the timer runs coalesce: only the newest input is kept and nothing starts |
| Renderer.BusyBurstKeepsNewest | src/RstRenderer.cpp:31-36 | edits while a job runs without delay coalesce the same way |
| Renderer.StaleInputRenderedLast | src/RstRenderer.cpp:25-37 | schedule as written can render an older input after a newer one |
| Renderer.EmptyInputRenderedLast | src/RstRenderer.cpp:123-128 | the timer as written can render an empty input after the newest one; the corrected timer does not |
| Renderer.RstRenderer.constructor | src/RstRenderer.cpp:8-15 | the renderer starts from the initial scheduler state, on the given bridge, having emitted nothing |
| Renderer.RstRenderer.SetDelay | src/RstRenderer.cpp:55-58 | only the delay changes |
| Renderer.RstRenderer.ClearPendingInput | src/RstRenderer.cpp:50-53 | only the pending input is dropped |
| Renderer.RstRenderer.Render | src/RstRenderer.cpp:60-105 | the state and answer follow the render step: a job starts exactly when none runs |
| Renderer.RstRenderer.Schedule | src/RstRenderer.cpp:25-37 | the state follows the corrected schedule step |
| Renderer.RstRenderer.Reschedule | src/RstRenderer.cpp:39-48 | the state follows the reschedule step |
| Renderer.RstRenderer.TimerTriggered | src/RstRenderer.cpp:123-128 | the state follows the corrected timer step |
| Renderer.RstRenderer.RenderJob | src/RstRenderer.cpp:68-95 | the bridge state is that of the publish_string call in store mode, and the output is the job output for its outcome |
| Renderer.RstRenderer.RenderPythonException | src/RstRenderer.cpp:107-121 | the page built by appends is the exception document |
| Renderer.RstRenderer.ThreadFinished | src/RstRenderer.cpp:130-147 | the finished job's output is emitted, the bridge ran that job's call, and the scheduler takes the finish step |
| Configuration.MergeKeepsKeys | src/Config.cpp:127-131 | loading the file never adds or drops a key; a key in the file takes the file's value, others keep theirs |
| Configuration.EnsureRunsOnce | src/Config.cpp:90-109 | re-entry during initialisation is a logic error that changes nothing; an initialised store is left alone; otherwise, unless a listener reads the store, it becomes initialised with the supplied defaults, the file merged only when asked and readable; a second call changes nothing |
| Configuration.Config.constructor | src/Config.cpp:6-8 | a new store is empty, uninitialised and unmodified |
| Configuration.Config.LoadDefaults | src/Config.cpp:111-116 | the supplied defaults become both the defaults and the values; when a listener reads the store during initialisation, the logic error it meets leaves with the defaults in and the values unreplaced |
| Configuration.ReadingListenerLeavesStoreStuck | src/Config.cpp:90-116 | a listener that reads the store during the first initialisation makes it throw and leaves the store initialising and uninitialised with its old values, so every later initialisation, and every get, all and set, throws and changes nothing |
| Configuration.Config.LoadFromFile | src/Config.cpp:118-138 | true exactly when the file could be read; then its values are merged, otherwise nothing changes |
| Configuration.Config.EnsureInitialized | src/Config.cpp:90-109 | the outcome and the new state are those of the initialisation step: an initialised store is left alone, re-entry throws and changes nothing, a reading listener makes the first call throw with the store left initialising |
| Configuration.Config.Has | src/Config.cpp:10-13 | whether the store holds a value for the key; Configuration.Config.Get and Configuration.MergeKeepsKeys state what it depends on |
| Configuration.Config.Get | src/Config.cpp:15-20 | after initialisation, the value of the key, or an invalid variant for an unknown key; when initialisation throws, the logic error, with the store as initialisation left it |
| Configuration.Config.All | src/Config.cpp:22-27 | after initialisation, all values; when initialisation throws, the logic error, with the store as initialisation left it |
| Configuration.Config.DefaultValues | src/Config.cpp:51-56 | after initialisation, the defaults |
| Configuration.Config.Load | src/Config.cpp:58-61 | initialisation with the file |
| Configuration.Config.Set | src/Config.cpp:29-36 | after initialisation the key holds the value, the store is modified and one update is emitted; when initialisation throws, the logic error, with the store as initialisation left it |
| Configuration.Config.SetAll | src/Config.cpp:38-49 | all entries are inserted, the store marked modified and one update emitted, but only when the store already holds a value |
| Configuration.Config.InsertEach | src/Config.cpp:43-45 | the loop inserts every entry, later ones overriding the old values |
| Configuration.Config.RestoreDefaults | src/Config.cpp:63-71 | an uninitialised store initialises without the file; an initialised one gets fresh defaults as values and emits one update |
| Configuration.Config.Save | src/Config.cpp:73-88 | a write happens only when initialised and modified; the result is true exactly when that write succeeds, and only then is the store unmodified |
| Document.FindBlock | src/UI/Code/EditManipulator.cpp:460-461 | the block found holds the position, its end included |
| Document.FindBlockMonotonic | src/UI/Code/EditManipulator.cpp:456-470 | a later position is never in an earlier block |
| Document.SelectedBlocksTouch | src/UI/Code/EditManipulator.cpp:456-470 | a block lies between the blocks of from and to exactly when it touches the range [from, to] |
| Document.LinesWellFormed | src/UI/Code/EditManipulator.cpp:373-379 | inserted text becomes blocks without breaks, as long in total as the text |
| Document.LinesOfJoin | src/UI/Code/EditManipulator.cpp:373-379 | the blocks of a document's text are the document's blocks |
| Document.JoinOfLines | src/UI/Code/EditManipulator.cpp:373-379 | joining the blocks of a text gives the text with each break written as U+2029 |
| Document.JoinOfSplit | src/UI/Code/EditManipulator.cpp:401-418 | splitting at U+2029 and joining again gives the text back |
| Document.SplitOfJoin | src/UI/Code/EditManipulator.cpp:401-418 | pieces without U+2029, joined and split again, come back unchanged |
| Document.FindBlockCountsBreaks | src/UI/Code/EditManipulator.cpp:460-461 | the block number of a position is the number of breaks before it |
| LineText.Indentation | src/UI/Code/EditManipulator.cpp:349-362 | the indentation is the run of spaces at the start of the line, up to the first other character |
| LineText.IndentationIs | src/UI/Code/EditManipulator.cpp:349-362 | a run of n leading spaces followed by the end or another character is the indentation |
| LineText.TrailingSpaces | src/UI/Code/EditManipulator.cpp:282-288 | the count is the run of spaces at the end of the line, back to the first other character |
| LineText.TrimRight | src/UI/Code/EditManipulator.cpp:282-294 | one block's trailing spaces cut off; LineText.TrimRightRemovesSpacesOnly and LineText.TrimRightIdempotent state its properties |
| LineText.TrimRightRemovesSpacesOnly | src/UI/Code/EditManipulator.cpp:267-301 | a trimmed line plus its trailing spaces is the line, and it ends in no space |
| LineText.TrimRightIdempotent | src/UI/Code/EditManipulator.cpp:267-301 | trimming twice trims nothing more |
| LineText.TrimmedBlocksProperties | src/UI/Code/EditManipulator.cpp:267-301 | every block loses exactly its trailing spaces, none is left ending in a space, and trimming again changes nothing |
| LineText.TrimmedUpToSteps | src/UI/Code/EditManipulator.cpp:277-295 | the block loop trims one more block per step and ends with every block trimmed |
| LineText.BlankIsAllSpace | src/UI/Code/EditManipulator.cpp:309-317 | a line matches ^\s*$ exactly when all its characters are white space |
| LineText.BlankTail | src/UI/Code/EditManipulator.cpp:309-322 | the count is the run of blank blocks at the end of the document |
| LineText.SingleBlankLineAtEnd | src/UI/Code/EditManipulator.cpp:303-347 | the blank tail replaced by one empty block; LineText.SingleBlankLineAtEndProperties states its properties |
| LineText.SingleBlankLineAtEndProperties | src/UI/Code/EditManipulator.cpp:303-347 | the document ends in one empty block after a non-blank one; the blocks before the blank tail are kept; one is added when there was no blank tail |
| LineText.SingleBlankLineAtEndIdempotent | src/UI/Code/EditManipulator.cpp:303-347 | normalising the end twice changes nothing more |
| LineText.NormaliseThenTrim | src/UI/MainWindow.cpp:219-224 | after both pre-save steps the document ends in one empty block after a non-blank one and no block ends in a space |
| LineText.RemovedIndent | src/UI/Code/EditManipulator.cpp:64-72 | unindent takes from a selected line only leading spaces: as many as it has, at most numChars, none for a numChars that is not positive |
| LineText.UnindentRemovesSpacesOnly | src/UI/Code/EditManipulator.cpp:56-80 | unindenting a line removes leading spaces only, and lowers its indentation by their number |
| LineText.UnindentUndoesIndent | src/UI/Code/EditManipulator.cpp:21-80 | unindenting a selection by the amount it was indented by gives the blocks back |
| LineText.NextStop | src/UI/Code/EditManipulator.cpp:39-44 | the source's ceiling formula is the distance to the next multiple of numChars |
| LineText.IndentReachesNextStop | src/UI/Code/EditManipulator.cpp:39-44 | indenting at the cursor moves it to the next tab stop strictly after the old column |
| LineText.StopDistance | src/UI/Code/EditManipulator.cpp:84-90 | unindent at the cursor goes back at most to the previous multiple of the unit, at least one column when not at the start |
| LineText.Backspaces | src/UI/Code/EditManipulator.cpp:92-100 | unindent at the cursor removes only spaces, up to the stop distance, stopping at the first other character |
| LineText.CursorUnindent | src/UI/Code/EditManipulator.cpp:82-108 | with the stop distance from numChars, at most numChars spaces, all just before the cursor, are removed |
| LineText.CursorUnindentAsWritten | src/UI/Code/EditManipulator.cpp:82-108 | unindent at the cursor as written, the stop measured from indentSize; LineText.UnindentByOneRemovesIndentSize shows what it gets wrong |
| LineText.UnindentByOneRemovesIndentSize | src/UI/Code/EditManipulator.cpp:84-87 | unindent(1) as written removes four spaces from "    x" at column 4; the corrected one removes one |
| LineText.UnindentAgreesOnIndentSize | src/UI/Code/EditManipulator.cpp:47-50 | with the indent size as argument, as written and corrected agree: unindent() is unaffected |
| LineText.IndexOfMarker | src/UI/Code/EditManipulator.cpp:153 | the index found is the first "%1", or -1 exactly when there is none |
| LineText.ArgWithoutMarker | src/UI/Code/EditManipulator.cpp:147-162 | a format without "%1" comes back unchanged |
| LineText.NormalizedArgSlice | src/UI/Code/EditManipulator.cpp:147-162 | with one marker, the argument stands where the marker stood |
| LineText.ArgOfSingleMarker | src/UI/Code/EditManipulator.cpp:147-162 | with one marker, the result is the text before the marker, the argument, and the text after it |
| LineText.PaddedLines | src/UI/Code/EditManipulator.cpp:401-418 | the indented text splits into the padded lines, and cutting the pad off gives the text back |
| LineText.EmptyLineBeforeProperties | src/UI/Code/EditManipulator.cpp:427-440 | an empty block goes in exactly when the first selected block is neither first nor after a blank; it then follows a blank or is first; removing the added block gives the blocks back; a second pass adds nothing |
| LineText.EmptyLineAfterProperties | src/UI/Code/EditManipulator.cpp:443-453 | an empty block goes in exactly when the last selected block is neither last nor before a blank; the blocks up to it stay; removing it gives the blocks back; a second pass adds nothing |
| LineText.AddedBefore | src/UI/Code/EditManipulator.cpp:427-440 | the empty line before adds at most one block and one character |
| LineText.RepeatFree | src/UI/Code/EditManipulator.cpp:226 | repeating a symbol without breaks gives a line without breaks |
| LineText.HeadingText | src/UI/Code/EditManipulator.cpp:221-234 | the heading text; LineText.HeadingLines and LineText.HeadingSelectsTitle state its properties |
| LineText.HeadingLines | src/UI/Code/EditManipulator.cpp:205-240 | a one-line title makes an underline as long as the title times the symbol, and a heading of two lines, or three with the overline |
| LineText.HeadingSelectsTitle | src/UI/Code/EditManipulator.cpp:236 | the selection offsets select exactly the title inside the heading text |
| Editing.EmptyLineAfterBlankAround | src/UI/Code/EditManipulator.cpp:420-454 | after both empty lines, the selection keeps its blocks and text and has a blank or the document's edge on each side |
| Editing.EmptyLineBeforeKeepsSelection | src/UI/Code/EditManipulator.cpp:427-440 | the empty line before moves the selection on by the break added and keeps its text and blocks |
| Editing.EmptyLineAfterKeepsSelection | src/UI/Code/EditManipulator.cpp:443-453 | the empty line after leaves the selection where it was, with the same text and blocks |
| Editing.EditManipulator.constructor | src/UI/Code/EditManipulator.cpp:11-14 | an editor over the text's blocks, the cursor at the start, indent size 4 |
| Editing.EditManipulator.RemoveText | src/UI/Code/EditManipulator.cpp:364-371 | the range is deleted, and the editor's cursor moves as Qt moves a cursor across a removal |
| Editing.EditManipulator.InsertText | src/UI/Code/EditManipulator.cpp:373-379 | the text goes in at the position, and the editor's cursor moves as Qt moves a cursor across an insertion |
| Editing.EditManipulator.GetLineIndentation | src/UI/Code/EditManipulator.cpp:349-362 | the loop counts exactly the leading spaces |
| Editing.EditManipulator.GetSelectedBlocks | src/UI/Code/EditManipulator.cpp:456-470 | the numbers run from the block of from to the block of to, and are exactly the blocks touching the range |
| Editing.EditManipulator.Indent | src/UI/Code/EditManipulator.cpp:21-45 | with a selection every touched block gets numChars spaces in front and the cursor's ends keep their blocks, moving on past the spaces (a position at the start of its block with the anchor before it stays in front); otherwise spaces up to the next tab stop go in at the cursor, which moves past them |
| Editing.EditManipulator.IndentSelection | src/UI/Code/EditManipulator.cpp:25-37 | every touched block gets numChars spaces in front and no other block changes; position and anchor keep their blocks; the anchor's column grows by numChars, and so does the position's, except a position at column 0 with the anchor before it, which stays at column 0 |
| Editing.EditManipulator.IndentBlocks | src/UI/Code/EditManipulator.cpp:32-34 | the loop leaves the document and cursor as the indent passes over the selected blocks do |
| Editing.EditManipulator.IndentBlock | src/UI/Code/EditManipulator.cpp:33 | inserting at a block's start through another cursor is one more indent pass |
| Editing.IndentPassesBlocks | src/UI/Code/EditManipulator.cpp:32-34 | after the passes over blocks first..first+i-1, exactly those blocks carry numChars more spaces in front |
| Editing.IndentPassesPlace | src/UI/Code/EditManipulator.cpp:32-34 | through the passes each cursor end keeps its block; its column moves past the spaces once its block is indented, a position at column 0 with the anchor before it excepted; the order of the ends is kept |
| Editing.IndentPassKeepsPlace | src/UI/Code/EditManipulator.cpp:33 | one pass over block e moves each end as Qt moves a cursor across an insertion at the block's start |
| Editing.IndentStepKeepsPlace | src/UI/Code/EditManipulator.cpp:33 | an insertion at the start of block e keeps an end's block; its column grows only when it is in block e and not staying in front |
| Editing.IndentPassesFound | src/UI/Code/EditManipulator.cpp:25-37 | with both ends in the passed blocks, block and column of each end after the passes, in terms of the original document |
| Editing.IndentSelectionOutcome | src/UI/Code/EditManipulator.cpp:25-37 | the passes over the selection's blocks give the indented blocks and the cursor outcome IndentSelection promises |
| Editing.PlacedFound | src/UI/Code/EditManipulator.cpp:456-470 | an end at a block's start plus a column within the block is found in that block at that column |
| Editing.SelectionEndsSelected | src/UI/Code/EditManipulator.cpp:456-470 | both cursor ends lie in the blocks from the selection's first to its last |
| Editing.EditManipulator.IndentAtCursor | src/UI/Code/EditManipulator.cpp:39-44 | spaces up to the next tab stop go in at the cursor, which ends after them in the same block |
| Editing.EditManipulator.Unindent | src/UI/Code/EditManipulator.cpp:52-110 | with a selection every touched block loses its removable indentation and the cursor's ends keep their blocks, an end among the removed spaces going to column 0 and one after them moving back by their number; otherwise the spaces just before the cursor back to the previous multiple of numChars are deleted; that stop is the corrected one, measured from numChars, while LineText.CursorUnindentAsWritten measures it from indentSize as the source does |
| Editing.EditManipulator.UnindentSelection | src/UI/Code/EditManipulator.cpp:56-80 | every touched block loses up to numChars leading spaces and no other block changes; position and anchor keep their blocks; an end within the removed spaces goes to column 0, one after them moves back by their number |
| Editing.EditManipulator.UnindentBlocks | src/UI/Code/EditManipulator.cpp:62-78 | the loop leaves the document and cursor as the unindent passes over the selected blocks do |
| Editing.EditManipulator.UnindentBlock | src/UI/Code/EditManipulator.cpp:63-77 | removing a block's removable indentation through another cursor is one more unindent pass |
| Editing.UnindentPassesBlocks | src/UI/Code/EditManipulator.cpp:62-78 | after the passes over blocks first..first+i-1, each of those lost its first k characters and no other block changed |
| Editing.UnindentPassesPlace | src/UI/Code/EditManipulator.cpp:62-78 | through the passes each cursor end keeps its block; once its block is unindented, its column goes to 0 if it was among the removed characters, else back by their number |
| Editing.UnindentPassKeepsPlace | src/UI/Code/EditManipulator.cpp:75-77 | one pass over block e moves each end as Qt moves a cursor across a removal at the block's start |
| Editing.UnindentStepKeepsPlace | src/UI/Code/EditManipulator.cpp:75-77 | a removal at the start of block e keeps an end's block; its column changes only when it is in block e |
| Editing.UnindentPassesFound | src/UI/Code/EditManipulator.cpp:56-80 | with both ends in the passed blocks, block and column of each end after the passes, in terms of the original document |
| Editing.UnindentSelectionOutcome | src/UI/Code/EditManipulator.cpp:56-80 | the passes over the selection's blocks give the unindented blocks and the cursor outcome UnindentSelection promises |
| Editing.EditManipulator.LeadingSpacesToRemove | src/UI/Code/EditManipulator.cpp:64-72 | the loop finds the leading spaces among the first numChars characters |
| Editing.EditManipulator.UnindentAtCursor | src/UI/Code/EditManipulator.cpp:82-108 | the spaces just before the cursor, up to the previous multiple of numChars, are deleted and the cursor moves back by them |
| Editing.EditManipulator.CursorBackspaces | src/UI/Code/EditManipulator.cpp:82-100 | the count is the corrected cursor unindent |
| Editing.EditManipulator.BackspacesBefore | src/UI/Code/EditManipulator.cpp:92-100 | the loop counts the spaces just before the cursor, up to the limit, stopping at the first other character |
| Editing.EditManipulator.TrimTrailingWhitespace | src/UI/Code/EditManipulator.cpp:267-301 | the document becomes the trimmed blocks |
| Editing.EditManipulator.CountTrailingSpaces | src/UI/Code/EditManipulator.cpp:282-288 | the loop counts exactly the trailing spaces |
| Editing.EditManipulator.EnsureSingleBlankLineAtEnd | src/UI/Code/EditManipulator.cpp:303-347 | the document becomes its blank tail replaced by one empty block |
| Editing.EditManipulator.ClearLastBlock | src/UI/Code/EditManipulator.cpp:327-341 | one removal step empties the last block, and drops it when the break before it goes too |
| Editing.EditManipulator.CountBlankLinesAtEnd | src/UI/Code/EditManipulator.cpp:309-322 | the scan counts exactly the blank blocks at the end |
| Editing.EditManipulator.CursorInsertText | src/UI/Code/EditManipulator.cpp:389 | the selection is replaced by the text and the cursor ends after it, unselected |
| Editing.EditManipulator.InsertAndSelectText | src/UI/Code/EditManipulator.cpp:381-399 | the selection is replaced by the text; with offsets inside it, exactly the text between the offsets is selected |
| Editing.EditManipulator.FormatSelection | src/UI/Code/EditManipulator.cpp:147-162 | the selection, or the default text when it is empty, goes in place of "%1"; with one marker that argument ends up selected; without a marker the whole format is selected |
| Editing.EditManipulator.FormatSelectionAsHeading | src/UI/Code/EditManipulator.cpp:205-240 | empty lines are ensured around the selection, the heading text replaces it and the title ("Heading" when nothing is selected) ends up selected |
| Editing.EditManipulator.InsertHeading | src/UI/Code/EditManipulator.cpp:219-236 | empty lines are ensured around the selection, the heading text replaces the selection (moved on by the break added before it), and exactly the title ends up selected |
| Editing.EditManipulator.EnsureEmptyLines | src/UI/Code/EditManipulator.cpp:420-454 | the document gains the empty lines asked for, and the selection moves on by the break put in before it |
| Editing.EditManipulator.EnsureEmptyLineBefore | src/UI/Code/EditManipulator.cpp:427-440 | an empty block goes in before the first selected block when needed, the selection moving on by it |
| Editing.EditManipulator.EnsureEmptyLineAfter | src/UI/Code/EditManipulator.cpp:443-453 | an empty block goes in after the last selected block when needed, the selection unmoved |
| Editing.EditManipulator.IndentText | src/UI/Code/EditManipulator.cpp:401-418 | every line of the text gets the indent size in spaces, and the result splits into exactly those lines |
| Editing.EditManipulator.IndentNewLine | src/UI/Code/EditManipulator.cpp:112-124 | the previous line's indentation replaces the selection and the cursor ends after it; with no indentation nothing changes |
| Editing.EditManipulator.JumpToStartOfLine | src/UI/Code/EditManipulator.cpp:126-140 | the cursor goes to the first non-space of its line, or to column 0 when already there; the anchor stays only when anchored |
| Editing.EditManipulator.SetIndentSize | src/UI/Code/EditManipulator.cpp:142-145 | only the indent size changes |
| Editing.EditManipulator.GotoLine | src/UI/Code/EditManipulator.cpp:254-265 | true exactly for a line from 1 to the block count, and then the cursor is at that line's start; otherwise nothing moves |
| Window.RecentFilesAfterOpen | src/UI/MainWindow.cpp:192-199 | the recent-file list after opening a file; Window.RecentFilesProperties states its properties |
| Window.RecentFilesProperties | src/UI/MainWindow.cpp:192-199 | the path is always listed; the list changes exactly when it was not; then the path comes first before the old entries in order, at most ten in all; no duplicate appears; opening again changes nothing |
| Window.UpdateRecentFiles | src/UI/MainWindow.cpp:192-199 | the loop and prepend give the specified list, and a store is asked for exactly when the path was new |
| Window.RecordRecentFile | src/UI/MainWindow.cpp:192-199 | after initialisation, a listed path leaves the store alone; a new one stores the updated list, marking the store modified |
| Window.FileName | src/FileManager.cpp:124-127 | the file name is the end of the path after its last '/', and holds no '/' |
| Window.FileState.PresentableFileName | src/FileManager.cpp:124-127 | the file name of an open file, else "New file"; Window.FileName states what the name is |
| Window.Title | src/UI/MainWindow.cpp:238-245 | the window title; Window.TitleProperties states its properties |
| Window.TitleProperties | src/UI/MainWindow.cpp:238-245 | the title ends in " - RSTPad" and starts with the name, the name can be read back from it, and a dirty file's title differs |
| Window.MainWindow.UpdateFileUi | src/UI/MainWindow.cpp:234-252 | the title follows the title rule, the status bar shows the path or "New file", and Save is enabled exactly when dirty |
| Window.PlainText | src/UI/MainWindow.cpp:231 | the plain text is as long as the document, with U+2028 written as a line feed and U+00A0 as a space |
| Window.PlainBlockUnchanged | src/UI/MainWindow.cpp:231 | a block without U+2028 or U+00A0 is written as it is |
| Window.PlainTextRoundTrip | src/UI/MainWindow.cpp:231 | the saved text read back gives the same blocks, when no block holds U+2028 or U+00A0 |
| Window.PlainTextRewrites | src/UI/MainWindow.cpp:231 | a block "a" U+2028 "b" is saved as two lines, and a no-break space comes back as a space |
| Window.TrimKeepsBlankness | src/UI/MainWindow.cpp:219-224 | trimming a line does not change whether it is blank |
| Window.TrimKeepsBlankTail | src/UI/MainWindow.cpp:219-224 | trimming every block keeps the number of blank blocks at the end |
| Window.PreSaveBoth | src/UI/MainWindow.cpp:216-227 | with both steps on, the document ends in one empty block after a non-blank one with no trailing spaces, and the two steps commute |
| Window.FileSaveRequested | src/UI/MainWindow.cpp:208-232 | the enabled steps run, normalisation first, and the data is the plain text of the result |

## Left out

- Threads and `QFuture`: a render job is modelled by its effect when it finishes. The scheduler is a
  state machine with the timer, job start and job finish as events.
- The embedded interpreter is a parameter of the model. Bootstrapping it (`initializePythonEnvironment`) and the reference counting of Python objects are left out.
- Floating-point values are kept as opaque bit patterns. A single-precision float is held as its
  exact widening.
- `Converter.ToVariant`: a Python float used as a dictionary key gets the key "", because `Values.VariantToString`
  does not compute a double's decimal text, which `QVariant::toString` gives. Distinct float keys therefore
  fall into one entry in the model, while the source keeps them apart by their text.
- The nested `QVariant` case of `variantToPythonObject` (src/PythonBridge.cpp:227-228) is left out.
- JSON (de)serialisation and file access in `Config`:
  - the file's content is an environment parameter;
  - whether a write succeeds is a parameter of `Save`;
  - the `updated` signal is a counter.
- `setDefaults` listeners are modelled by the map of defaults they supply and by whether one of them reads
  the store (get or all) after supplying. A listener that writes through set, or that catches the logic
  error it meets, is not modelled.
- Qt's undo grouping (`beginEditBlock`/`endEditBlock`) is left out, since it does not change the text.
- Cursor positions after trimming and after normalising the end of the document are left out.
- Text lengths count characters, not UTF-16 units. Visual line wrapping is not modelled.
- `formatSelectionAsLink` (URL parsing), `formatSelectionAsCodeBlock` and
  `formatSelectionAsHorizontalRule` are left out. They are not among the modelled operations.
- `LineText.Arg` replaces only "%1", although `QString::arg` replaces the lowest-numbered marker. The
  formats the editor passes use "%1".
- `Converter.ToPython`: converts map keys by their full text, the evidently intended key, not as line 267 does.
  `Converter.RoundTrip` and `Converter.MapRoundTrip` hold for that corrected converter. The key as written is
  `Converter.DictKeyAsWritten`. It agrees with the corrected key for every ASCII key
  (`Converter.AsWrittenKeyExactForAscii`) and loses text for "éa" (`Converter.AsWrittenKeyTruncates`).
- `Document.Lines`: takes only '\n' and U+2029 as block breaks. `QTextCursor::insertText` also breaks on
  '\r', with "\r\n" counting as one break, so text holding a carriage return is not modelled.
- `Window.PlainTextRoundTrip`: holds only for blocks without U+2028 or U+00A0, because `toPlainText`
  rewrites those two characters (`Window.PlainTextRewrites`).
- A C `long` is taken to be 64 bits wide, as on LP64 platforms. Where `long` has 32 bits, more longs overflow.
- Translated strings (`tr`) are taken untranslated. The UTF-8 encoding of the saved text is left out.
- The pre-save flags are parameters of `Window.FileSaveRequested`. Reading them from the
  configuration and converting them to bool are left out.
- The absolute path of an opened file is taken as given.
- `Editing.EditManipulator.SetIndentSize`: requires a size of at least 1, which the source does not
  check. The cursor branches divide by the indent size, so a size of 0 would divide by zero.
- `Editing.EmptyLineAfterBlankAround`: the property "ensureEmptyLines(true, true) keeps the
  selection with a blank neighbour on each side" is proved from the after-step alone. It is joined
  with `Editing.EmptyLineBeforeKeepsSelection` and `LineText.EmptyLineBeforeProperties`, not as one
  lemma.

## Findings

| source | as written | input that shows it | evidently intended | confidence | as-written member | corrected member |
|---|---|---|---|---|---|---|
| src/PythonBridge.cpp:267 | a map key is decoded from its UTF-8 bytes with the key's UTF-16 length, so a non-ASCII key is cut short or cannot be decoded | the key "éa" becomes "é"; the key "é" gives a null key | the key's full text becomes the dictionary key | not executed | Converter.AsWrittenKeyTruncates | Converter.MapRoundTrip |
| src/RstRenderer.cpp:25-37 | without a delay, schedule starts the new input at once but keeps an older pending input, which is rendered after it | delay 300, schedule "a"; delay 0, schedule "b": "b" starts, then "a" is rendered last | the pending input is dropped when a newer one is started | not executed | Renderer.StaleInputRenderedLast | Renderer.StepsKeepValid |
| src/RstRenderer.cpp:123-128 | when the timer expires with nothing pending, render is called with an empty input | delay 300, schedule "a", the timer fires and "a" starts; schedule "b", which re-arms the timer; the delay is set to 0; "a" finishes and "b" starts; "b" finishes; the timer fires and "" is rendered last | nothing is rendered when no input is pending | not executed | Renderer.EmptyInputRenderedLast | Renderer.StepsKeepValid |
| src/UI/Code/EditManipulator.cpp:84-87 | unindent(numChars) at the cursor measures the stop from indentSize, not numChars | unindent(1) on "    x" at column 4 with indent size 4 deletes four spaces | the stop is measured from numChars, as the selection branch does | not executed | LineText.UnindentByOneRemovesIndentSize | Editing.EditManipulator.UnindentAtCursor |
