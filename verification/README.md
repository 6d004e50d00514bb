# Verified core of KiTTY

KiTTY is a terminal emulator for Windows that adds session folders, portable settings files and a
picture background to PuTTY. This project models the parts of it that are algorithms rather than
calls into Windows, and proves what they are for. One module stands for one source component.

| module | component |
|---|---|
| `BitmapShrink` | the one-pass area averaging of the background picture |
| `LineDiscipline` | the local line editor between keyboard, screen and back end |
| `ControlBoxes` | the flat array of dialog panels that stays grouped like a tree |
| `ProxyStderr` | the splitter that makes log lines of a proxy's standard error |
| `CallbackQueue` | the queue of top-level callbacks |
| `SettingsMap`, `SettingsFile` | string maps, and the lines of a settings file they are stored in |
| `SettingsStore` | the doubly linked settings list of portable mode, and its file |
| `Munging` | percent-escaping of names and values |
| `FolderNames` | cleaning of folder names, and navigation in the session tree |
| `CharsetConversion` | ISO 8859-1 to UTF-8 and UTF-8 to ISO 8859-15, in place |
| `ConnectString` | `user:pass@host:port/cmd` |
| `RegistryTree` | copying, deleting and renaming registry trees |
| `HostKeys` | the rewriting of old-style host keys |
| `DirectoryListing` | the sorted listing that falls back to an unsorted one |
| `CText`, `Wrappers` | bytes, C strings in memory, `Option` |

Code that works in place is a method on an `array`, or on a class with the fields of the source's
structure. Its contract ties the result to a function of the input, and the lemmas beside it say
what that function is good for: that a decoder undoes an encoder, that every run keeps an
invariant, that a stream may arrive in any pieces. A byte is an integer below 256; the contents of
a C string are the bytes before its terminator.

## What the code does not do

The models follow the code also where it falls short of its purpose or of its comments. The
lemmas named give the exact condition under which it does what it is meant to. Where a method
returns `inside`, it stops where the code would read or write outside a buffer, and its contract
says exactly when that is. The others read and write inside their arrays under what they require,
which "Left out" names where it is more than the code asks for.

- A working bitmap's row length is kept in 16 bits and holds a row only up to a width of 21844
  (`StrideHoldsARow`).
- An erase key in UTF-8 mode looks before the front of the buffer when only continuation bytes are
  in it; two keys are enough (`StrayContinuationIsUnsafe`). Erasing from a line is safe, however
  often it is done, if and only if the line is empty or begins with a character start
  (`ErasingIsSafeExactly`), and over a run of keys from such a line if and only if no continuation
  byte arrives at an empty line (`NoStrayExactly`).
- Deleting the callbacks of a context leaves the `queued` flag of an idempotent callback set. That
  callback is never queued again (`StuckIsReached`, `StuckForGood`). Over a whole run that happens if
  and only if some operation deletes it while it waits (`StuckOverRunExactly`).
- Replacing the last item of a settings list loses the new item, and with it the items added after
  it: a run of additions is right exactly when no name is set twice in direct succession
  (`AdditionsAreFaithful`), and a run of additions and deletions exactly when no name is left whose
  last addition went to a broken list (`RunIsFaithfulExactly`). The `num` field is not counted down
  by a deletion (`SettingsDelItem`).
- A port forwarding is saved under a key that is told apart by its first `D`. A map of forwardings
  comes back exactly when no ordinary key holds a `D`, and every dynamic one has an `L` with no `D`
  before it (`SavedMapLoads`).
- A map saved without its values loses a first key that is empty (`KeysSurviveExactly`).
- `unmungestr` writes no terminator when its output length runs out; decoding then does not give
  the string back (`RoundTripInMemory`).
- `iso8859_1_to_utf8` writes one byte behind its terminator. It stays inside the size it is given
  unless text and terminator fill that exactly (`StaysInsideExactly`), which is the size it asks
  for when it refuses (`RetryWritesTooFar`).
- `CleanFolderName` looks before the front of a name if and only if that begins with spaces and then
  a separator (`PassLeavesExactly`, `LeadingSpacesLeave`).
- A map's text that ends in an unfinished escape makes `gppmap_forced` read on behind its terminator
  (`GppmapForced`); the writer makes no such text (`SavedMapLoads`).
- A password with two adjacent `@` is not given back by the connect string parser, even when they
  are doubled (`ParseInvertsPrint`).
- Where the user text of a connect string is empty and the host holds an `@` of its own, what is left
  of the string is taken apart differently when it is parsed again (`RewrittenParses`).
- `to_latin9` says that code points below 256 are the same in ISO 8859-1 and ISO 8859-15. Eight are
  not: the currency sign U+00A4 becomes the byte of the euro sign, and so on (`TableIsInverse`).
- A session path that ends in a space is not found again by going down and up (`UpUndoesDown`).
- A setting in a settings list's file may go on over several lines, but they are joined in a block
  that is not made larger: with lines that do not fit in it the block is left, and with a blank line
  the reader looks before it (`LinesAreJoined`, `OverlongJoinLeaves`, `SettingsLoad`). The line ends
  inside the setting are lost.
- A line of a settings file is read in pieces of 2046 bytes. A longer one is cut, and what is in
  front of the cut is taken for encrypted text (`LongLineIsCut`). On a blank line the search looks
  before its buffer (`ReadPiece`), and a line of just 2046 bytes is as good as followed by one
  (`FullPieceStopsSearch`).
- A rewritten host key can be up to four bytes longer than the old one (`NewTextGrows`); its caller
  makes the buffer as long as the key it looks for (kitty_puttytray.c:1585-1586).
- Renaming a registry key that does not exist deletes the destination (`MovedNothing`).

## Model

| member | source | states |
|---|---|---|
| BitmapShrink.StrideHoldsARow | kitty_image.c:106-111 | the 16-bit row length holds three bytes a pixel exactly up to width 21844, and is then the next multiple of four |
| BitmapShrink.WorkBitmap.CreateWorkingBitmap | kitty_image.c:106-111 | the bitmap has the asked size, and its rows fit in it exactly up to width 21844 |
| BitmapShrink.OverlapSumIsCovered | kitty_image.c:172-214 | the overlaps of the first n source pixels with a cell add up to the part of the cell they cover |
| BitmapShrink.CellWeight | kitty_image.c:172-214 | the weights a destination cell receives on one axis add up to source size over target size |
| BitmapShrink.PixelWeight | kitty_image.c:172-214 | the weights of a source pixel on one axis add up to 1 |
| BitmapShrink.SharesOfPixel | kitty_image.c:177-178 | what the modular counter says: a pixel lies in one cell or straddles two, and with which shares |
| BitmapShrink.CounterStep | kitty_image.c:194-195 | one step of the modular counter keeps its meaning, never reaches a cell outside, and a straddling pixel is never in the last cell |
| BitmapShrink.GiveIsContribution | kitty_image.c:182-189 | the weighted copies of a pixel at the index, its neighbour and the row below are exactly its contribution to every cell |
| BitmapShrink.SpreadSplitRow | kitty_image.c:177-196 | a source row that straddles two target rows takes every accumulator cell from its sum before the row to its sum after it, without an access outside |
| BitmapShrink.SpreadWholeRow | kitty_image.c:197-211 | the same for a row that lies in one target row |
| BitmapShrink.Accumulate | kitty_image.c:164-214 | after the single pass every cell holds the double sum over all source pixels of value times horizontal times vertical overlap fraction |
| BitmapShrink.AverageIsBetween | kitty_image.c:216-223 | after scaling, every cell lies between the least and the greatest source value |
| BitmapShrink.RoundedAverageIsBetween | kitty_image.c:221 | so does the rounded byte; the cast loses nothing |
| BitmapShrink.NothingIsLost | kitty_image.c:172-214 | at every point of the pass all cells together hold exactly the source values read so far |
| BitmapShrink.ShrinkWorkingBitmap | kitty_image.c:161-226 | every byte of the target is the one nearest to the area average of its cell, the greater one where two are as near; the source is unchanged |
| LineDiscipline.EraseStop | 0.76b_My_PuTTY/ldisc.c:225-234 | the erase loop stops at the last character start, and looks before the front if and only if there is none |
| LineDiscipline.LastWord | 0.76b_My_PuTTY/ldisc.c:235-245 | the longest proper prefix that is empty or ends in a space followed by a non-space |
| LineDiscipline.KeysInTwoChunks | 0.76b_My_PuTTY/ldisc.c:202-344 | cutting a key sequence in two changes neither the line nor the events |
| LineDiscipline.SendInTwoChunks | 0.76b_My_PuTTY/ldisc.c:168-344 | in editing mode two sends equal one send of both texts |
| LineDiscipline.SendPieces | 0.76b_My_PuTTY/ldisc.c:168-344 | and any number of sends equal one send of the whole text |
| LineDiscipline.KeyKeepsHead | 0.76b_My_PuTTY/ldisc.c:225-234 | a buffer that begins with a character start keeps doing so, and erasing stays inside it |
| LineDiscipline.TypedCharacterIsErased | 0.76b_My_PuTTY/ldisc.c:225-234 | typing a character, of one byte or in UTF-8 of several, and then an erase key leaves the line as it was |
| LineDiscipline.TypedWordIsErased | 0.76b_My_PuTTY/ldisc.c:235-245 | typing a word and spaces where a word may begin, and then the word key, leaves the line as it was |
| LineDiscipline.NoStrayMeansSafe | 0.76b_My_PuTTY/ldisc.c:225-234 | over whole runs erasing stays inside the buffer if no continuation byte arrives at an empty line |
| LineDiscipline.StrayContinuationIsUnsafe | 0.76b_My_PuTTY/ldisc.c:225-234 | a lone continuation byte and a backspace make the loop look before the front |
| LineDiscipline.ErasingIsSafeExactly | 0.76b_My_PuTTY/ldisc.c:225-234 | any number of erase keys stays inside the buffer if and only if the line is empty or begins with a character start |
| LineDiscipline.NoStrayExactly | 0.76b_My_PuTTY/ldisc.c:225-234 | a run of keys may be broken off anywhere and erased from, always inside the buffer, if and only if no continuation byte arrives at an empty line |
| LineDiscipline.EchoMatchesWidth | 0.76b_My_PuTTY/ldisc.c:63-94 | for every byte in both modes the echo moves the cursor by exactly the width its erasure assumes |
| LineDiscipline.EchoTellsBytes | 0.76b_My_PuTTY/ldisc.c:78-94 | a printable byte is shown as itself, a control character by "^" and a letter, others by their hex digits, and no two bytes look the same |
| LineDiscipline.RuboutReturns | 0.76b_My_PuTTY/ldisc.c:104-108 | rubbing out a text brings the cursor back to where it began and never further left |
| LineDiscipline.KeyKeepsCursor | 0.76b_My_PuTTY/ldisc.c:202-344 | with echo on a key leaves the cursor at the end of the displayed line, and nothing left of the line's start is touched |
| LineDiscipline.CursorIsAtEndOfLine | 0.76b_My_PuTTY/ldisc.c:202-344 | after any keys the cursor column is the start of the edit plus the widths of the buffered bytes, and at no time has the cursor been left of the smallest start the run went through |
| LineDiscipline.ScreenShowsLine | 0.76b_My_PuTTY/ldisc.c:202-344 | with echo on, after any keys the row of the cursor shows the line being edited from where the edit began, and blanks behind it |
| LineDiscipline.NothingShownWithoutEcho | 0.76b_My_PuTTY/ldisc.c:202-344 | with echo off, as for a password, no key writes anything to the terminal |
| LineDiscipline.ReturnSendsLine | 0.76b_My_PuTTY/ldisc.c:319-332 | in every protocol the return key sends the whole line and then its end, as bytes or as Telnet's code, and leaves the line empty |
| LineDiscipline.EofKeySendsLine | 0.76b_My_PuTTY/ldisc.c:281-288 | control-D sends the line without an end, and at an empty line signals the end of input |
| LineDiscipline.KillGivesUpLine | 0.76b_My_PuTTY/ldisc.c:246-269 | a line kill sends nothing of the line, and signals what the key stands for |
| LineDiscipline.InputIsKept | 0.76b_My_PuTTY/ldisc.c:202-344 | in every protocol, over any keys that take nothing out of the line, what the back end got followed by what is in the line is what was in the line followed by what the keys stand for |
| LineDiscipline.TextIsKept | 0.76b_My_PuTTY/ldisc.c:168-344 | so a text that is typed, pasted or comes from a special key gets to the back end whole and in order, with its returns as ends of lines where they are keys or pasted |
| LineDiscipline.SignalsFollowKeys | 0.76b_My_PuTTY/ldisc.c:246-332 | over any keys the specials signalled are those in the table of the keys, in their order; a quoted key signals nothing |
| LineDiscipline.UneditedInputIsKept | 0.76b_My_PuTTY/ldisc.c:345-388 | without editing the buffer and then the data are sent, a single special key in Telnet as the code it has; the buffer comes off the screen and the data are echoed |
| LineDiscipline.Ldisc.Bsb | 0.76b_My_PuTTY/ldisc.c:104-108 | n rub-outs |
| LineDiscipline.Ldisc.DeleteChar | 0.76b_My_PuTTY/ldisc.c:225-234 | stays inside the buffer if and only if the loop finds a character start; then takes the buffer to it and rubs out exactly what was dropped |
| LineDiscipline.Ldisc.DeleteWord | 0.76b_My_PuTTY/ldisc.c:235-245 | takes the buffer to the last word stop and rubs out exactly what was dropped |
| LineDiscipline.Ldisc.KillLine | 0.76b_My_PuTTY/ldisc.c:246-269 | erases the line and signals, or inserts the key where Telnet keys are off |
| LineDiscipline.Ldisc.SendAfterReturn | 0.76b_My_PuTTY/ldisc.c:312-333 | a line feed right behind a return in Raw protocol ends the line as the return key does |
| LineDiscipline.Ldisc.HandleKey | 0.76b_My_PuTTY/ldisc.c:208-343 | one key stays inside the buffer exactly when the abstract editor says so, and does to line and event log what that does |
| LineDiscipline.Ldisc.EditKeys | 0.76b_My_PuTTY/ldisc.c:203-344 | the loop stays inside the buffer exactly when the whole key sequence is safe, and does what the abstract editor does with it |
| LineDiscipline.Ldisc.SendUnedited | 0.76b_My_PuTTY/ldisc.c:345-388 | without editing the buffer goes first and comes off the screen, then the data as it is or as a Telnet special |
| LineDiscipline.Ldisc.LdiscSend | 0.76b_My_PuTTY/ldisc.c:168-389 | a send stays inside the buffer exactly when its keys are safe, and does what the abstract machine does, in both modes and for special strings |
| ControlBoxes.CtrlPathCompare | 0.76b_My_PuTTY/dialog.c:28-40 | the number of leading path elements two paths share, INT_MAX exactly for equal paths |
| ControlBoxes.JoinInvertsElements | 0.76b_My_PuTTY/dialog.c:28-40 | the elements of a path hold no slash, and joined by slashes they are the path |
| ControlBoxes.ElementsCharByChar | 0.76b_My_PuTTY/dialog.c:31-39 | counting matching boundaries character by character counts shared elements |
| ControlBoxes.KinshipIsUltrametric | 0.76b_My_PuTTY/dialog.c:28-40 | two relatives of a path are as close to each other as the more distant one is to it |
| ControlBoxes.GroupedMeansContiguous | 0.76b_My_PuTTY/dialog.c:84-108 | in a grouped array the sets under any prefix stand together, and so do those of one path |
| ControlBoxes.FindSetIsGoodPlace | 0.76b_My_PuTTY/dialog.c:89-108 | the search stops where the path may be put in, with no equal path before it |
| ControlBoxes.FindSetFindsFirst | 0.76b_My_PuTTY/dialog.c:89-108 | in a grouped array it finds the first set of the path if there is one |
| ControlBoxes.InsertKeepsGrouped | 0.76b_My_PuTTY/dialog.c:129-148 | inserting at such a place keeps the array grouped |
| ControlBoxes.AfterRunIsGoodPlace | 0.76b_My_PuTTY/dialog.c:151-177 | behind the run of equal paths is such a place too |
| ControlBoxes.IterationIsComplete | 0.76b_My_PuTTY/dialog.c:115-126 | iterating from -1 visits exactly the sets of the path, each once, in order |
| ControlBoxes.ControlBox.CtrlFindSet | 0.76b_My_PuTTY/dialog.c:89-108 | the index the search specification gives |
| ControlBoxes.ControlBox.CtrlFindPath | 0.76b_My_PuTTY/dialog.c:115-126 | the next set of the path or -1 |
| ControlBoxes.ControlBox.CtrlSettitle | 0.76b_My_PuTTY/dialog.c:129-148 | inserts the title, and keeps the array grouped and the names unique |
| ControlBoxes.ControlBox.CtrlGetset | 0.76b_My_PuTTY/dialog.c:151-177 | gives the set of that path and name if there is one anywhere, and only otherwise makes it; grouped and unique afterwards |
| ProxyStderr.FeedCutsTheStream | 0.76b_My_PuTTY/be_misc.c:89-153 | segments and residue put together are the stream; every segment is a line or a full buffer; the residue has no newline and is shorter than the buffer |
| ProxyStderr.CutIsUnique | 0.76b_My_PuTTY/be_misc.c:89-153 | that fixes the cut: there is no other way to cut the stream so |
| ProxyStderr.FeedInTwoChunks | 0.76b_My_PuTTY/be_misc.c:70-154 | a stream in two pieces is cut like the whole |
| ProxyStderr.FeedInAnyChunks | 0.76b_My_PuTTY/be_misc.c:70-154 | and so it is in any pieces |
| ProxyStderr.StreamIsLogged | 0.76b_My_PuTTY/be_misc.c:102-138 | in whatever pieces a stream arrives, each of its lines is logged without its line end, and each full buffer as a partial line, up to a NUL, in order; the rest stays in the buffer |
| ProxyStderr.WholeLineIsLogged | 0.76b_My_PuTTY/be_misc.c:111-121 | a line without a NUL is logged as it is |
| ProxyStderr.ProxyStderrBuf.LogLines | 0.76b_My_PuTTY/be_misc.c:105-125 | logs each complete line without its line end and leaves what follows the last |
| ProxyStderr.ProxyStderrBuf.Drain | 0.76b_My_PuTTY/be_misc.c:102-147 | one round of output and compaction is the byte-at-a-time machine on what was added |
| ProxyStderr.ProxyStderrBuf.LogProxyStderr | 0.76b_My_PuTTY/be_misc.c:70-154 | a call logs what the byte-at-a-time machine logs and keeps its residue |
| CallbackQueue.StepKeepsInv | 0.76b_My_PuTTY/callback.c:29-133 | every operation keeps the order of the queue, that a callback is run, waiting or deleted and no two of these, and that an idempotent one waits at most once and only while flagged |
| CallbackQueue.RunsKeepInv | 0.76b_My_PuTTY/callback.c:29-133 | so does every run |
| CallbackQueue.FromStartInOrder | 0.76b_My_PuTTY/callback.c:29-133 | after any run from the start the callbacks run were run in the order they were queued, and when the queue is empty they are all but the deleted ones |
| CallbackQueue.DrainedMeansAllRan | 0.76b_My_PuTTY/callback.c:102-128 | in any state with an empty queue exactly the callbacks never deleted have run |
| CallbackQueue.RoundsRunAll | 0.76b_My_PuTTY/callback.c:102-128 | running as many callbacks as wait runs them all, in order, and then nothing is pending |
| CallbackQueue.RunsWhatWasQueued | 0.76b_My_PuTTY/callback.c:36-128 | from the start, what waits or is run under the n-th ticket is the n-th function and context taken into the queue |
| CallbackQueue.KeptIsFilter | 0.76b_My_PuTTY/callback.c:44-70 | a deletion keeps exactly the calls of other contexts |
| CallbackQueue.KeptIsInOrder | 0.76b_My_PuTTY/callback.c:44-70 | and their order |
| CallbackQueue.WaitsAfterDelete | 0.76b_My_PuTTY/callback.c:52-54 | a call waits after a deletion if and only if it did before, and neither its context nor, for an idempotent callback, that callback or its context is the one deleted |
| CallbackQueue.DeletedNeverStarts | 0.76b_My_PuTTY/callback.c:44-128 | after a deletion, whatever is done as long as nothing is queued for the context again, no callback is started that uses it |
| CallbackQueue.NotifiedWhenPendingStarts | 0.76b_My_PuTTY/callback.c:80-92 | the notifier is called exactly when pending turns from false to true |
| CallbackQueue.ArmedAsRequested | 0.76b_My_PuTTY/callback.c:22-27 | over any run the notifier is in place exactly if the last request was for it |
| CallbackQueue.QueueIdempotentWorksUnlessStuck | 0.76b_My_PuTTY/callback.c:36-42 | queueing leaves the callback waiting if and only if it is not stuck |
| CallbackQueue.StuckExactlyByDelete | 0.76b_My_PuTTY/callback.c:36-70 | a callback gets stuck by a deletion while it waits, and by nothing else |
| CallbackQueue.StuckIsReached | 0.76b_My_PuTTY/callback.c:36-70 | queueing it and then deleting the callbacks of its context, from the start, gets a callback stuck |
| CallbackQueue.StuckForGood | 0.76b_My_PuTTY/callback.c:36-70 | and stays so over every run |
| CallbackQueue.RunEndsAfter | 0.76b_My_PuTTY/callback.c:29-133 | a run ends in the state that its operations, one after the other, give |
| CallbackQueue.StuckOverRunExactly | 0.76b_My_PuTTY/callback.c:36-70 | after a run a callback is stuck if and only if some operation of the run deleted it while it was waiting |
| CallbackQueue.Callbacks.RequestCallbackNotifications | 0.76b_My_PuTTY/callback.c:22-27 | installs or removes the notifier, nothing else |
| CallbackQueue.Callbacks.QueueToplevelCallback | 0.76b_My_PuTTY/callback.c:72-100 | the linked list becomes the abstract queue with the call at its end; head and tail stay null together |
| CallbackQueue.Callbacks.QueueIdempotentCallback | 0.76b_My_PuTTY/callback.c:36-42 | the same, unless the flag is set already |
| CallbackQueue.Callbacks.DeleteCallbacksForContext | 0.76b_My_PuTTY/callback.c:44-70 | relinks the nodes to the filtered queue |
| CallbackQueue.Callbacks.BeginRunning | 0.76b_My_PuTTY/callback.c:106-121 | the head leaves the queue and becomes current |
| CallbackQueue.Callbacks.EndRunning | 0.76b_My_PuTTY/callback.c:122-127 | the current callback is gone |
| CallbackQueue.Callbacks.ToplevelCallbackPending | 0.76b_My_PuTTY/callback.c:130-133 | whether one is current or waiting |
| Munging.UnmungeInvertsMunge | kitty_commun.c:347-387 | decoding undoes encoding for every string |
| Munging.MungeIsInjective | kitty_commun.c:347-366 | different strings have different munged texts |
| Munging.MungedTextIsHarmless | kitty_commun.c:347-366 | at most three times as long, no leading dot, and only visible bytes other than the nine that a file name may not hold |
| Munging.PieceFormat | kitty_commun.c:347-366 | which bytes are written as themselves, and that all others are written as a percent sign and two hex digits, the high one first |
| Munging.PlainTextIsKept | kitty_commun.c:347-366 | text of such bytes is munged to itself |
| Munging.NoEscapeIsKept | kitty_commun.c:367-387 | a percent sign that is not followed by two bytes is no escape: text without escapes decodes to itself |
| Munging.RoundTripInMemory | kitty_commun.c:347-387 | in memory the string comes back with its terminator if and only if the output length does not run out |
| Munging.MungeStr | kitty_commun.c:347-366 | the output buffer holds the munged text and a terminator |
| Munging.UnmungeLoop | kitty_commun.c:367-384 | also when input and output are the same memory, the bytes written are the decoded text, up to the output length |
| Munging.UnmungeStr | kitty_commun.c:367-387 | the decoded text with a terminator, or cut off without one; nothing else is written |
| FolderNames.CleanIsClean | kitty_commun.c:117-131 | no slash, no space next to a backslash is left |
| FolderNames.CleanOfClean | kitty_commun.c:117-131 | a clean name stays as it is |
| FolderNames.CleanIsIdempotent | kitty_commun.c:117-131 | cleaning twice is cleaning once |
| FolderNames.CleanKeepsSolid | kitty_commun.c:117-131 | nothing but spaces is taken out |
| FolderNames.CleanTrimsParts | kitty_commun.c:117-131 | cleaning is trimming the parts between backslashes |
| FolderNames.CleanKeepsPrefix | kitty_commun.c:117-131 | a clean path stays in front of whatever is appended to it |
| FolderNames.PassLeavesExactly | kitty_commun.c:125-130 | the third pass looks before the front if and only if the name begins with spaces and then a separator |
| FolderNames.LeadingSpacesLeave | kitty_commun.c:125-130 | a name of two spaces, a backslash and an x makes it do so |
| FolderNames.CleanFolderName | kitty_commun.c:117-131 | the three in-place passes end, stay inside exactly when the name does not begin with spaces and then a separator, and leave the cleaned name |
| FolderNames.NavigateStaysBelow | kitty_store.c:405-422 | one step of navigation stays at or below the initial path, and the path stays clean |
| FolderNames.NavigationStaysBelow | kitty_store.c:405-422 | so does any sequence of steps |
| FolderNames.DownAddsFolder | kitty_store.c:414-418 | going down puts the name of the folder behind the path, without leading spaces |
| FolderNames.UpUndoesDown | kitty_store.c:405-422 | going up from there leads back to the same path, if and only if that did not end in a space |
| FolderNames.SessionPath.SetSessPath | kitty_store.c:405-422 | the path becomes the next one of the navigation, and the returned part is what follows the initial path |
| CharsetConversion.DecodeOfEncode | kitty_crypt.c:157-239 | a sequence made as section 3 of RFC 3629 says decodes to the ISO 8859-15 byte of its code point, or to nothing |
| CharsetConversion.DecodeInvertsEncode | kitty_crypt.c:127-243 | the same for whole texts |
| CharsetConversion.TableIsInverse | kitty_crypt.c:127-143 | every ISO 8859-15 byte is found from its code point; a byte found stands for the code point it was found from if and only if that is not one of the eight that ISO 8859-15 has displaced |
| CharsetConversion.Latin9RoundTrip | kitty_crypt.c:127-243 | ISO 8859-15 text in UTF-8 is given back |
| CharsetConversion.EncodedAsInTable | kitty_crypt.c:113-120 | the UTF-8 encoding is that of the table in section 3 of RFC 3629 |
| CharsetConversion.StrayByteIsIgnored | kitty_crypt.c:158-241 | a byte that begins no sequence is passed over |
| CharsetConversion.BrokenSequenceIsIgnored | kitty_crypt.c:163-239 | so is, as a whole, a sequence in which a byte is no continuation byte |
| CharsetConversion.CutOffSequenceIsIgnored | kitty_crypt.c:163-239 | and one that the end of the text cuts off |
| CharsetConversion.Latin1RoundTrip | kitty_crypt.c:94-243 | ISO 8859-1 to UTF-8 and back is the identity on every text |
| CharsetConversion.DecodeLoop | kitty_crypt.c:157-239 | the loop decodes, also in place, and reads nothing behind the end |
| CharsetConversion.Utf8ToIso8859_15 | kitty_crypt.c:151-243 | the decoded text and its terminator; only these bytes are written |
| CharsetConversion.ConvertByte | kitty_crypt.c:113-120 | one turn of the backward loop keeps a half converted buffer half converted |
| CharsetConversion.MeasureUtf8 | kitty_crypt.c:99-105 | the first run gives the length of the UTF-8 text |
| CharsetConversion.StaysInsideExactly | kitty_crypt.c:107-122 | a call stays inside the given size if and only if text and terminator do not fill it exactly |
| CharsetConversion.RetryWritesTooFar | kitty_crypt.c:107-112 | given the size it asked for, it writes one byte too far; so does a text of 1023 bytes in a buffer of 1024 |
| CharsetConversion.Iso8859_1ToUtf8 | kitty_crypt.c:94-122 | the buffer holds exactly the UTF-8 text when there is space, and is untouched otherwise; it stays inside exactly as far as the call is to write |
| SettingsMap.EscapedDecodes | kitty_settings.c:1229-1240 | an escaped text in front of anything decodes to itself |
| SettingsMap.FieldDecodes | kitty_settings.c:1481-1498 | a written field is read as its entry, up to the separator |
| SettingsMap.MarshalledComesBack | kitty_settings.c:1210-1253 | a list of fields is read back whole and in order |
| SettingsMap.EscapedForm | kitty_settings.c:1229-1240 | a backslash is put before each "=", "," and backslash, and all else is written as it is |
| SettingsMap.MarshalledForm | kitty_settings.c:1227-1241 | the stored form is key=value,key=value, and key,key without values |
| SettingsMap.LeadingEmptyKeyIsLost | kitty_settings.c:1227-1228 | without values a first empty key writes nothing |
| SettingsMap.SurvivesExactly | kitty_settings.c:1210-1225 | which single entry comes back as it was, if and only if |
| SettingsMap.NoStray | kitty_settings.c:1500-1521 | if a whole map of forwardings comes back, no entry in it was of the other kind: entries cannot stand in for each other |
| SettingsMap.SavedMapLoads | kitty_settings.c:1195-1257 | a map saved with values loads as it was; a map of forwardings if and only if each entry survives |
| SettingsMap.SavedKeysLoad | kitty_settings.c:1195-1257 | a map saved without values loads with all its keys and empty values, but for a first empty key |
| SettingsMap.KeysSurviveExactly | kitty_settings.c:1195-1257 | the keys are the same if and only if there is no such key |
| SettingsMap.RoomFor | kitty_settings.c:1200-1205 | the size reckoned before writing |
| SettingsMap.PutEscaped | kitty_settings.c:1229-1233 | writes the escaped text behind what is there |
| SettingsMap.WmapForced | kitty_settings.c:1195-1254 | the text of the map, in a buffer of the reckoned size, without a write outside |
| SettingsMap.CookField | kitty_settings.c:1481-1498 | decodes a field to the front of the buffer it is read from; what is written never reaches what is still to be read; stays inside exactly when the field has no unfinished escape |
| SettingsMap.GppmapForced | kitty_settings.c:1462-1526 | stays inside the text exactly when no escape in it is unfinished, and then gives the map of the functional decoder |
| SettingsFile.LineNamesOnlyItsKey | kitty_settings.c:1334-1345 | a line is taken for a key's exactly if it was written under it |
| SettingsFile.PieceOfLine | kitty_settings.c:1341-1343 | a written line of up to 2046 bytes is one piece for the reader, taken whole and not decrypted |
| SettingsFile.LongLineIsCut | kitty_settings.c:1341-1343 | a longer one is cut there and decrypted |
| SettingsFile.SearchGoesOn | kitty_settings.c:1341-1352 | a text in which nothing is found and nothing blank is met does not affect a search in what follows it |
| SettingsFile.WrittenIsRead | kitty_settings.c:1334-1354 | a string written in a line of up to 2046 bytes is read back, whatever the decryption and whatever else stands in the file, unless something before it ends the search |
| SettingsFile.WrittenIsSilent | kitty_settings.c:1334-1354 | what is written under other names, in shorter lines, does not end it |
| SettingsFile.FullPieceStopsSearch | kitty_settings.c:1341-1343 | a line of just 2046 bytes under another name makes the search look before its buffer |
| SettingsFile.MapRoundTrip | kitty_settings.c:1195-1257 | the same for a map among other settings, with the exact condition for port forwardings |
| SettingsFile.Strip | kitty_settings.c:1342-1346 | trailing line ends and backslashes become NULs, all else stays; inside exactly if something is left |
| SettingsFile.ReadPiece | kitty_settings.c:1341-1351 | one turn of the search: what is taken, stripped, decrypted, compared and decoded; inside exactly unless the piece is blank |
| SettingsFile.File.WriteSettingS | kitty_settings.c:1152-1164 | appends the line of the key |
| SettingsFile.File.ReadSettingS | kitty_settings.c:1334-1354 | the decoded value of the first piece that names the key; stays inside its buffer exactly if no blank piece comes before that |
| SettingsFile.File.SaveMap | kitty_settings.c:1195-1257 | appends the line of the map |
| SettingsFile.File.LoadMap | kitty_settings.c:1462-1526 | nothing if no piece names the map, and otherwise what it decodes to; inside exactly if the search is and the text found has no unfinished escape |
| SettingsStore.AdditionsAreFaithful | kitty_store.c:519-537 | a run of additions gives the list with each item put at the end if and only if no name is set twice in direct succession; otherwise what was added last is not found |
| SettingsStore.RunIsFaithfulExactly | kitty_store.c:494-537 | after any run of additions and deletions the list is what it is meant to be if and only if no name is hidden by an addition to a broken list; what is missing is exactly the hidden names |
| SettingsStore.LostStaysLost | kitty_store.c:519-537 | when the list breaks, and that additions never mend it |
| SettingsStore.NamesStayDistinct | kitty_store.c:494-537 | names are distinct after any addition or deletion |
| SettingsStore.AddedIsFound | kitty_store.c:519-579 | in a list that is whole the value found is the last one set |
| SettingsStore.LatestIsFound | kitty_store.c:568-579 | the same for the list as it is meant to be |
| SettingsStore.SavedTextParses | kitty_store.c:611-697 | the text of a saved list is read inside the block and parses to its settings, in order |
| SettingsStore.LoadInvertsSave | kitty_store.c:611-697 | a saved list loaded into a new one is the same list |
| SettingsStore.OverlongJoinLeaves | kitty_store.c:632-639 | a line of one byte and then any line of at least 4095 bytes leave the block |
| SettingsStore.ReadFirstLine | kitty_store.c:620-627 | the line a setting begins with is read whole, in a block that grows with it |
| SettingsStore.ReadWhole | kitty_store.c:620-645 | lines are joined until one ends in a backslash, and at the end of the file one is supplied; inside exactly if the first line is not blank and whatever is read or supplied fits the block |
| SettingsStore.LinesAreJoined | kitty_store.c:627-645 | a setting on several lines is read as if it were on one, if that fits the block, and leaves the block otherwise |
| SettingsStore.LastLineIsEnded | kitty_store.c:637-644 | a last line without a line end is given the backslash it lacks |
| SettingsStore.ParseLine | kitty_store.c:646-663 | name and decoded value of a line, none if it begins with the separator; inside exactly unless a name is followed by a single separator |
| SettingsStore.SettingsList.Bypass | kitty_store.c:501-512 | both neighbours are led past the item, first and last are right |
| SettingsStore.SettingsList.DelLoop | kitty_store.c:496-516 | one pass leaves exactly the other items, linked both ways |
| SettingsStore.SettingsList.SettingsDelItem | kitty_store.c:494-517 | deletion is a filter and keeps the links consistent; it mends a broken list when it takes out the last item found; the count is not changed |
| SettingsStore.SettingsList.SettingsAddItem | kitty_store.c:519-537 | removes and appends exactly if the list is whole and does not end in that name, and breaks it otherwise |
| SettingsStore.SettingsList.SettingsKey | kitty_store.c:568-579 | the value of the first item of the name |
| SettingsStore.SettingsList.SettingsSave | kitty_store.c:670-697 | the text of the list in its order, exactly when each setting has a value and a line that fits the buffer |
| SettingsStore.SettingsList.SettingsLoad | kitty_store.c:611-668 | stays inside its buffers for exactly the files whose settings are each read inside the block as it then is and have two separators if they have a name; adds their settings in order |
| ConnectString.ParseInvertsPrint | 0.76b_My_PuTTY/cmdline.c:41-105 | parsing a printed connect string, with or without user, password, port and command, gives its parts, with runs of '@' in the password squeezed; so it inverts printing if and only if the password has no two adjacent '@' |
| ConnectString.ParsePrintedUser | 0.76b_My_PuTTY/cmdline.c:50-62 | user and password are told apart from the host, and from each other |
| ConnectString.ScanPasses | 0.76b_My_PuTTY/cmdline.c:50-62 | the scan for the single '@' passes over user and doubled password |
| ConnectString.ParsePrintedHost | 0.76b_My_PuTTY/cmdline.c:63-85 | host, port and command are told apart, whichever are there, for bracketed hosts too |
| ConnectString.SqueezeOfDouble | 0.76b_My_PuTTY/cmdline.c:92-94 | collapsing undoes doubling up to runs of '@' |
| ConnectString.RewrittenFits | 0.76b_My_PuTTY/cmdline.c:99-102 | the rewritten host name fits the buffer it came in |
| ConnectString.RewrittenPrint | 0.76b_My_PuTTY/cmdline.c:99-102 | what is left of a printed connect string is user, "@" and host, or the host alone where no user text was printed |
| ConnectString.RewrittenParses | 0.76b_My_PuTTY/cmdline.c:41-105 | parsed again, that gives the same user and host and neither password, port nor command, if and only if no empty user text was needed to protect an "@" of the host |
| ConnectString.SplitUser | 0.76b_My_PuTTY/cmdline.c:50-62 | what precedes the single '@' and what follows it |
| ConnectString.SplitHost | 0.76b_My_PuTTY/cmdline.c:63-87 | the in-place cuts leave host, port and command |
| ConnectString.CollapsePairs | 0.76b_My_PuTTY/cmdline.c:92-94 | the shifting loop ends and leaves every run of '@' single |
| ConnectString.ManageConnectString | 0.76b_My_PuTTY/cmdline.c:42-112 | the five parts, and what is left in the host name buffer |
| RegistryTree.MovedExactly | kitty.c:1157-1166 | after a rename all that was below the source is below the destination and nothing else has changed, except that missing parents of the destination have been made |
| RegistryTree.MovedNothing | kitty.c:1157-1166 | renaming a key that is not there only deletes the destination |
| RegistryTree.MoveBack | kitty.c:1157-1166 | renaming to where nothing was and back restores the registry |
| RegistryTree.MoveKeepsTree | kitty.c:1157-1166 | every key still has its parents |
| RegistryTree.SubkeyCopied | kitty_registry.c:365-397 | copying one more subkey takes a partial copy one step further, in whatever order they come |
| RegistryTree.AllCopied | kitty_registry.c:365-397 | a partial copy with all subkeys done is the whole copy |
| RegistryTree.SubkeyIsSmaller | kitty_registry.c:392 | the recursion has fewer keys below it, and its source is as it was |
| RegistryTree.DeletedBelow | kitty_registry.c:268-281 | deleting below a subkey takes keys of that subtree only, and fewer are left |
| RegistryTree.Registry.RegDelTree | kitty_registry.c:241-290 | ends, succeeds, and removes the key with all below it and nothing else |
| RegistryTree.Registry.CopyValues | kitty_registry.c:331-362 | the values of the source are set over those of the destination |
| RegistryTree.Registry.RegCopyTree | kitty_registry.c:293-400 | ends, and makes every key below the source below the destination, with its values over those there |
| RegistryTree.Registry.RegRenameTree | kitty.c:1157-1166 | the sequence of deletion, copy and deletion is the move |
| HostKeys.LowFirstIsOldNumber | kitty_puttytray.c:1655-1666 | reading the text through the index with its two low bits flipped gives its digits from the lowest one up |
| HostKeys.TextOfHexNumber | kitty_puttytray.c:1661-1664 | a hex text without leading zero is the text of its number |
| HostKeys.HexNumberOfText | kitty_puttytray.c:1661-1664 | and the other way round |
| HostKeys.NewHalfKeepsNumber | kitty_puttytray.c:1671-1690 | the new text denotes the number the old one did, and has no leading zero unless it is 0 |
| HostKeys.NewTextGrows | kitty_puttytray.c:1655-1690 | the new text is at most four bytes longer than the old one, and is so exactly when neither half has a leading zero |
| HostKeys.NewTextReads | kitty_puttytray.c:1655-1690 | read as two hex numbers with a comma between them, the new text gives the two numbers of the old one, in their order |
| HostKeys.ConvertPart | kitty_puttytray.c:1671-1690 | one half is rewritten behind what is there; inside the output exactly if it fits with its terminator |
| HostKeys.ConvertOldStyle | kitty_puttytray.c:1655-1690 | both halves, with prefixes, comma and terminator; inside the output exactly if that is larger than the new text |
| DirectoryListing.OrderIsTotal | 0.76b_My_PuTTY/psftpcommon.c:20-25 | the comparison is a total order |
| DirectoryListing.OrderIsTransitive | 0.76b_My_PuTTY/psftpcommon.c:20-25 | and transitive |
| DirectoryListing.OrderIsByFirstDifference | 0.76b_My_PuTTY/psftpcommon.c:20-25 | a name is not after another if and only if that goes on where it ends, or it has the smaller byte where they first differ |
| DirectoryListing.CostIsAllText | 0.76b_My_PuTTY/psftpcommon.c:60-63 | what is counted is a record for each name and the text of both its names |
| DirectoryListing.SortedListingIsUnique | 0.76b_My_PuTTY/psftpcommon.c:93-102 | two sorted listings of the same names show the same file names in the same order |
| DirectoryListing.Lister.Feed | 0.76b_My_PuTTY/psftpcommon.c:50-91 | names are stored while they all fit in the limit; the first that does not shows all of them in order after one warning; the count of memory never exceeds the limit |
| DirectoryListing.Lister.Finish | 0.76b_My_PuTTY/psftpcommon.c:93-102 | each name fed has been shown exactly once: sorted if all fit in the limit, and otherwise in feed order |

## Left out

- BitmapShrink.ShrinkWorkingBitmap: weights and sums are exact reals where the source has 32-bit floats, so rounding errors are not modelled; its nested loops are split into one method for each branch. `a->x*a->y` and the index are required not to overflow, through the bounds on width and height.
- BitmapShrink.WorkBitmap.CreateWorkingBitmap: sizes whose byte count does not fit the source's `int` are excluded.
- LineDiscipline.KeyKeepsCursor: the terminal line has no right margin, combining and wide characters count as one column, and a malformed UTF-8 sequence is shown as the source assumes.
- LineDiscipline.Ldisc.LdiscSend: script hooks and the interruption of a paste are not part of the model; configuration and the back end's answers do not change during a send; `isspace` is that of the C locale.
- LineDiscipline.Ldisc.LdiscSend: what the source does after it has left the buffer is not modelled.
- ProxyStderr.ProxyStderrBuf.LogProxyStderr: the buffer size is any positive number.
- CallbackQueue.Callbacks.BeginRunning: a callback that runs the queue itself, a nested run, is not modelled; what a callback does is the operations that come before EndRunning.
- ControlBoxes.CtrlPathCompare: paths are shorter than INT_MAX.
- FolderNames.CleanFolderName: what the source does after it has looked before the front of the name is not modelled.
- FolderNames.SessionPath.SetSessPath: the path buffer is required to have room for what is appended.
- CharsetConversion.Utf8ToIso8859_15: room for the decoded text and its terminator is required, which is less than the documentation asks for.
- Munging.MungeStr: its input is a sequence; the text is required to fit the output.
- SettingsFile.File.ReadSettingS: decryption is any function from texts to texts that fit the 2048-byte buffer with their terminator; how long its result can be is not modelled, nor what the source does after it has looked before its buffer. Key names have fewer than 255 bytes and hold no backslash and no line end.
- SettingsMap.GppmapForced: what the source does after it has read on behind the terminator is not modelled.
- SettingsFile.File: a settings file is the sequence of its bytes, without NULs; opening, flushing and the translation of line ends are not modelled.
- SettingsFile.File.WriteSettingS: encryption on writing is not modelled.
- SettingsStore.SettingsList.SettingsLoad: files with NULs are excluded; what the source does after it has left a buffer is not modelled.
- SettingsStore.SettingsList.SettingsSave: what the source prints for a setting without a value, or writes for one whose line is too long, is not modelled.
- SettingsStore.SettingsList.SettingsDelItem: freeing memory is not modelled; a deleted item has no name, as in the source.
- ConnectString.ManageConnectString: turning the port into a number, decoding or decrypting the command and storing the password in the configuration are not modelled; the parsed texts are the result.
- RegistryTree.Registry.RegCopyTree: source and destination must not lie one below the other; all calls succeed; values have at most 1024 bytes, as in the source's buffer; key names are compared exactly, while Windows ignores case. Subkeys are visited once each in any order.
- RegistryTree.Registry.RegDelTree: the root itself is not deleted; the buffer `lpEnd` of MAX_PATH characters in which the path of each subkey is built (kitty_registry.c:242, :274) is not modelled, so paths are of any length.
- HostKeys.ConvertOldStyle: old texts whose halves are empty or no multiple of four digits long are excluded, as the source then reads beside the half; what it does after it has left the output is not modelled.
- DirectoryListing.Sort: an insertion sort stands for the C library's `qsort`, of which only its specification is used.
- DirectoryListing.Lister.Finish: it is called once, at the end.
- Windows calls, drawing, tray, clipboard, dialogs, printing and external programs have no semantics in the repository.
- The field-by-field bodies of saving and loading a session, the command-line options and the backend tables have no algorithm in them.
- Password encryption is not part of this model.
