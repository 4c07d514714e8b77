# Console and storage drivers of the Exynos 7885 firmware, modelled in Dafny

The project models the stateful logic of three UEFI drivers and proves what it promises, over every
input and every run.

- **Graphics console** (`Screen`, `Terminal`, `TerminalCells`, `GraphicsConsole`, `TextModes`).
  `Terminal` is a simple terminal that takes one character at a time: narrow and wide characters, a wide
  character that does not fit leaving a blank cell, backspace over a row boundary, scrolling.
  `TerminalCells` says cell by cell and pixel by pixel what that comes to, in terms of the font and the
  colours only. `GraphicsConsole` is the driver: it draws runs in batches, calls itself for blanks and
  line ends, and shows its cursor by XOR on pixels. The driver is proved to end every run of calls with
  the terminal's text on the display and the cursor glyph on it once. `TextModes` is the table of modes.
- **Console splitter, text output** (`FlatTable`, `SharedModes`, `ModeMap`, `TextOutSplitter`,
  `StdErrSync`). Several consoles are merged into one. `SharedModes` says what they share, as a function
  of their mode tables; `FlatTable` compacts a flat array in place while one of its own columns says
  which rows stay; `ModeMap` is what the array means; `TextOutSplitter` is the driver; `StdErrSync` keeps
  the output and the error splitter in step.
- **Console splitter, input and graphics** (`Lists`, `Keys`, `KeyNotify`, `KeyQueue`, `TextInput`,
  `TextInSplitter`, `GraphicsModes`). Key notifications are registered on all keyboards or on none; keys
  go through one queue; `TextInput` is both as a state machine, `TextInSplitter` the driver; the graphics
  outputs share a list of resolutions.
- **DesignWare MMC host** (`MmcQueue`, `MmcHistory`, `DmaTable`, `Fifo`, `ClockDivisor`). The queue of
  asynchronous requests as a state machine and as the driver's code, and what a tick does told from the
  events before it (`MmcHistory`); the chain of DMA descriptors and the controller's walk over it;
  transfers through the FIFO; the clock divisor.

Each driver object is a class with the driver's fields, and its methods follow the driver's functions
branch by branch. A method's postcondition ties the new state to a specification function, and lemmas
state what that function means. The governing standard is the UEFI Specification:
sections 12.2 (Simple Text Input Ex), 12.4 (Simple Text Output) and 12.9 (Graphics Output).

Where the environment decides, it is a parameter: what a keyboard or the host controller answers,
which handles keyboards give out, how many allocations succeed, whether a mode switch succeeds. The
font service is any function from characters and colours to glyph pixels. Consoles and outputs are
fixed tables of modes of which only the query for mode 1 may fail.

Five results say where the code does not do what one would expect of it, each with a concrete input and
the exact condition:

- A console without mode 1 does not clear the shared mode 1 (`SharedModes.Mode1KeptThoughMissing`,
  `SharedModes.SharedLowModes`).
- A console that is added while the preferred mode is current already is left in the mode it came with,
  although the comment at ConSplitter.c:3316 says that all consoles are synced
  (`TextOutSplitter.SecondConsoleLeftBehind`, condition at `AddDevice`).
- Dropping a keyboard spoils the matrix of key notifications as soon as there is one, except for the last
  keyboard of the list if it goes altogether (`KeyNotify.TwoKeyboards`, `KeyNotify.RemovalKeepsMatrix`,
  `KeyNotify.LossKeepsMatrix`).
- With one graphics output left, QueryMode and SetMode can mean different modes by one number
  (`GraphicsModes.NumbersComeApart`, `GraphicsModes.NumbersAgreeAfterRemoval`).
- A descriptor table that reaches beyond 32 bits is accepted but not walked to its end
  (`DmaTable.WalkCutShort`, `DmaTable.WalkVisitsAll`).

Two smaller ones have their condition only: BYTCNT is 0 for data in the last block below 4 GiB
(`DmaTable.ByteCountFits`), and one pair of frequencies makes the divisor search overflow
(`ClockDivisor.DoubledDivisorFits`).

## Model

| member | source | states |
|---|---|---|
| GraphicsConsole.GraphicsConsole.DoAll | EXYNOS7885Pkg/Drivers/GraphicsConsoleDxe/GraphicsConsole.c:929-1730 | After any run of OutputString, SetAttribute, SetCursorPosition, ClearScreen, EnableCursor and SetMode calls (mode switches succeeding) the frame buffer is the text of the one-character-at-a-time terminal with the cursor glyph XORed in once, at the cursor, if the cursor is visible, and nowhere otherwise; cursor, attribute and mode are those of the terminal |
| GraphicsConsole.GraphicsConsole.OutputString | EXYNOS7885Pkg/Drivers/GraphicsConsoleDxe/GraphicsConsole.c:929-1186 | Batched drawing, the calls to itself for backspace, wrap and wide wrap, and the transient cursor toggles end in the same text and cursor as the simple terminal, for every string; the call terminates, the cursor ends in range and the attribute is restored |
| GraphicsConsole.GraphicsConsole.OutputStep | EXYNOS7885Pkg/Drivers/GraphicsConsoleDxe/GraphicsConsole.c:994-1174 | One round of the loop takes the terminal on, consumes a character or goes from a non-zero column to column 0, and leaves the cursor glyph shown only where a wide character is about to be drawn over it |
| GraphicsConsole.GraphicsConsole.FlushCursor | EXYNOS7885Pkg/Drivers/GraphicsConsoleDxe/GraphicsConsole.c:1928-2032 | The pixel loops turn the shown display into the hidden one and back: exactly the cursor glyph's pixels at the cursor's cell change |
| GraphicsConsole.GraphicsConsole.XorCursorGlyph | EXYNOS7885Pkg/Drivers/GraphicsConsoleDxe/GraphicsConsole.c:1995-2001 | The two nested loops toggle a pixel just when the glyph's bit for it, counted from the right, is set |
| GraphicsConsole.GraphicsConsole.MeasureRun | EXYNOS7885Pkg/Drivers/GraphicsConsoleDxe/GraphicsConsole.c:1122-1151 | The batch holds printable characters only and fits the line; the cursor moves by its width, or by two more when a wide character does not fit into the last cell |
| GraphicsConsole.GraphicsConsole.BackspaceOne | EXYNOS7885Pkg/Drivers/GraphicsConsoleDxe/GraphicsConsole.c:995-1018 | A backspace, made of moving, printing a blank and moving again, over a row boundary too, moves the cursor one cell back and blanks that cell; at the first cell it does nothing |
| GraphicsConsole.GraphicsConsole.ControlChar | EXYNOS7885Pkg/Drivers/GraphicsConsoleDxe/GraphicsConsole.c:1019-1107 | Line feed, with the two screen-to-screen transfers when it scrolls, carriage return and the two width characters do what the terminal does |
| GraphicsConsole.GraphicsConsole.PrintRun | EXYNOS7885Pkg/Drivers/GraphicsConsoleDxe/GraphicsConsole.c:1108-1173 | One batch with the wrap after it equals as many single characters of the terminal, the blank filler before a wide character included |
| GraphicsConsole.GraphicsConsole.SetAttribute | EXYNOS7885Pkg/Drivers/GraphicsConsoleDxe/GraphicsConsole.c:1510-1536 | The text stays and the cursor glyph is shown once, in the new colour; an attribute above 0x7F is refused and changes nothing |
| GraphicsConsole.GraphicsConsole.SetCursorPosition | EXYNOS7885Pkg/Drivers/GraphicsConsoleDxe/GraphicsConsole.c:1642-1688 | The text stays and the cursor glyph moves with the cursor; a position outside the window is refused and changes nothing |
| GraphicsConsole.GraphicsConsole.ClearScreen | EXYNOS7885Pkg/Drivers/GraphicsConsoleDxe/GraphicsConsole.c:1553-1619 | The whole display has the background colour, the cursor is at the first cell and its glyph is shown once if it is visible |
| GraphicsConsole.GraphicsConsole.EnableCursor | EXYNOS7885Pkg/Drivers/GraphicsConsoleDxe/GraphicsConsole.c:1706-1730 | The cursor glyph appears or disappears, the text stays |
| GraphicsConsole.GraphicsConsole.SetMode | EXYNOS7885Pkg/Drivers/GraphicsConsoleDxe/GraphicsConsole.c:1314-1490 | On success the display is black and the cursor glyph shown once; the same mode again clears the display; an unsupported mode changes nothing; the two failures after the cursor was erased leave it erased |
| GraphicsConsole.PreferMode | EXYNOS7885Pkg/Drivers/GraphicsConsoleDxe/GraphicsConsole.c:601-625 | The scan at the start finds the first mode of the configured size, or, with none configured, a mode with which none is larger in both directions; -1 when there is none |
| GraphicsConsole.GraphicsConsole.constructor | EXYNOS7885Pkg/Drivers/GraphicsConsoleDxe/GraphicsConsole.c:30-37 | The console that the driver starts with meets what every service needs: a mode is chosen, the cursor is hidden at the first cell, nothing was drawn |
| Screen.XorAtTwice | EXYNOS7885Pkg/Drivers/GraphicsConsoleDxe/GraphicsConsole.c:1995-2015 | Toggling the cursor twice at one place restores every pixel |
| Terminal.RunOfPrintables | EXYNOS7885Pkg/Drivers/GraphicsConsoleDxe/GraphicsConsole.c:1122-1172 | A run of printable characters that fits the line may be drawn at once: it ends as the same characters one by one |
| Terminal.OutputCrLf | EXYNOS7885Pkg/Drivers/GraphicsConsoleDxe/GraphicsConsole.c:1168-1172 | The string that a full line is ended with is a new line |
| Terminal.OutputSpace | EXYNOS7885Pkg/Drivers/GraphicsConsoleDxe/GraphicsConsole.c:1003-1004 | The string that backspace and wide wrap print puts one narrow blank cell, wrapping at the end of the line |
| Terminal.PutOverCursor | EXYNOS7885Pkg/Drivers/GraphicsConsoleDxe/GraphicsConsole.c:1163-1166 | Drawing over the cell with the cursor glyph leaves no trace of it: why the wide wrap may leave the cursor shown |
| Terminal.BackspaceTakesBack | EXYNOS7885Pkg/Drivers/GraphicsConsoleDxe/GraphicsConsole.c:995-1018 | A backspace after a narrow character puts the cursor back and blanks the cell, except at the very last cell |
| Terminal.MarginUntouched | EXYNOS7885Pkg/Drivers/GraphicsConsoleDxe/GraphicsConsole.c:1025-1057 | No string draws in the margin right of the text window, scrolling included |
| Terminal.OutputSplit | EXYNOS7885Pkg/Drivers/GraphicsConsoleDxe/GraphicsConsole.c:994-1176 | A string may be written in two calls wherever the width in force is that of the beginning |
| TerminalCells.FirstCharacter | EXYNOS7885Pkg/Drivers/GraphicsConsoleDxe/GraphicsConsole.c:994-1176 | A string does what its first character does and then what the rest does; a width character sets the width for the rest only |
| TerminalCells.ControlCharacters | EXYNOS7885Pkg/Drivers/GraphicsConsoleDxe/GraphicsConsole.c:995-1107 | Every character is drawn but backspace, line feed, carriage return and the two width characters |
| TerminalCells.NarrowCharacter | EXYNOS7885Pkg/Drivers/GraphicsConsoleDxe/GraphicsConsole.c:1151-1162 | A narrow character before the last column: its cell holds that character, drawn by the font in the colours of the attribute, the cursor is one cell on, and every other cell is as before |
| TerminalCells.WideCharacter | EXYNOS7885Pkg/Drivers/GraphicsConsoleDxe/GraphicsConsole.c:1151-1162 | A wide character with room to spare: its left half at the cursor, its right half in the next cell, every other cell as before |
| TerminalCells.LastOfLine | EXYNOS7885Pkg/Drivers/GraphicsConsoleDxe/GraphicsConsole.c:1162-1173 | A character that ends a line but the last: its cells are drawn, all others stay, and the cursor is at the start of the next line |
| TerminalCells.LastOfScreen | EXYNOS7885Pkg/Drivers/GraphicsConsoleDxe/GraphicsConsole.c:1025-1173 | A character that ends the last line: every cell shows what was one row below it, the character included, and the last row is background |
| TerminalCells.WideAtLastColumn | EXYNOS7885Pkg/Drivers/GraphicsConsoleDxe/GraphicsConsole.c:1163-1166 | A wide character at the last column leaves a blank there and follows on the next line |
| TerminalCells.LineFeedScrolls | EXYNOS7885Pkg/Drivers/GraphicsConsoleDxe/GraphicsConsole.c:1019-1095 | A line feed on the last row: cell by cell the text moves up one row, the last row is background, the margin and the cursor stay |
| TerminalCells.CursorOnly | EXYNOS7885Pkg/Drivers/GraphicsConsoleDxe/GraphicsConsole.c:1090-1101 | Line feed before the last row and carriage return move the cursor and change nothing else |
| TerminalCells.BackspaceCell | EXYNOS7885Pkg/Drivers/GraphicsConsoleDxe/GraphicsConsole.c:995-1018 | A backspace puts the cursor on the cell before it, over a row boundary too, and that cell, and no other, becomes a narrow space |
| TerminalCells.AttributeColours | EXYNOS7885Pkg/Drivers/GraphicsConsoleDxe/GraphicsConsole.c:1743-1757 | After an attribute is set, characters are drawn in the colour of its low four bits on that of its next three |
| TerminalCells.ClearedScreen | EXYNOS7885Pkg/Drivers/GraphicsConsoleDxe/GraphicsConsole.c:1553-1619 | Clearing paints every cell, the margin included, in the background colour |
| TerminalCells.OtherMode | EXYNOS7885Pkg/Drivers/GraphicsConsoleDxe/GraphicsConsole.c:1396-1490 | Another mode: a black display of that mode's size, the cursor at the first cell |
| TerminalCells.DisplayedPixel | EXYNOS7885Pkg/Drivers/GraphicsConsoleDxe/GraphicsConsole.c:1995-2015 | Pixel by pixel: the display is the text, with the three lowest lines of the cell under a visible cursor XORed with the colour of the characters |
| TextModes.InitializeTextModes | EXYNOS7885Pkg/Drivers/GraphicsConsoleDxe/GraphicsConsole.c:255-348 | The modes from 2 on are non-zero, fit the screen, are centred on it, differ from each other and from modes 0 and 1, and have the resolution's width and height; each of the four fixed modes is in the table just when it fits, and the full-screen mode always; at most two entries more than candidates are written |
| TextModes.FittingModeIsOnScreen | EXYNOS7885Pkg/Drivers/GraphicsConsoleDxe/GraphicsConsole.c:338-346 | A mode that fits has every cell of its centred window on the screen |
| TextOutSplitter.TextOutSplitter.DoAll | EXYNOS7885Pkg/Drivers/ConSplitterDxe/ConSplitter.c:3140-3457 | After any run of adds and deletes the modes that QueryMode reports are a function of the present list of consoles alone |
| TextOutSplitter.TextOutSplitter.AddDevice | EXYNOS7885Pkg/Drivers/ConSplitterDxe/ConSplitter.c:3140-3324 | A console that comes is appended, the reported modes become the shared ones, the current mode follows its row, and the preferred mode is set, or else the one to fall back on: which consoles change, and into which modes, is stated for both attempts and for every preferred mode; with one from 2 on, every console shows its size exactly when it was not current already or every console showed that size before |
| TextOutSplitter.TextOutSplitter.DeleteDevice | EXYNOS7885Pkg/Drivers/ConSplitterDxe/ConSplitter.c:3337-3457 | The first entry of the console goes, the map is built anew and the reported modes are those the other consoles share; an unknown console changes nothing |
| TextOutSplitter.TextOutSplitter.SetMode | EXYNOS7885Pkg/Drivers/ConSplitterDxe/ConSplitter.c:4841-4900 | A mode that is in range and not current is set: from mode 2 on every console goes into a mode of its own of the size that QueryMode reports; for modes 0 and 1 the first console goes into its own mode of that number, every other console with a mode of the size that the row has when the console is looked up goes into such a mode, and the others stay; success exactly when every console could be set. The current mode, or one out of range, changes no console |
| TextOutSplitter.AppliedAttempt | EXYNOS7885Pkg/Drivers/ConSplitterDxe/ConSplitter.c:4876-4889 | Setting each console to the entry of its column comes to that, for every row, modes 0 and 1 included |
| ModeMap.NewLowEntry | EXYNOS7885Pkg/Drivers/ConSplitterDxe/ConSplitter.c:2510-2557 | The entry that the search leaves in rows 0 and 1 for one more console: a mode of the row's size if the console offers one, and else none that it can set |
| ModeMap.LowOfColumn | EXYNOS7885Pkg/Drivers/ConSplitterDxe/ConSplitter.c:2490-2569 | Rows 0 and 1 of the map stay right for one more console |
| SharedModes.LastEntryOfRow0 | EXYNOS7885Pkg/Drivers/ConSplitterDxe/ConSplitter.c:2530-2554 | Row 0 has an entry for a console just when the console offers the size of row 0, and it is a mode of that size |
| SharedModes.LastEntryOfRow1 | EXYNOS7885Pkg/Drivers/ConSplitterDxe/ConSplitter.c:2530-2554 | Row 1 likewise, unless its size is that of row 0, which takes the match |
| SharedModes.LastEntryAfterFailure | EXYNOS7885Pkg/Drivers/ConSplitterDxe/ConSplitter.c:2510-2554 | When the query for mode 1 fails, row 1 keeps that failing mode as its entry, unless a later mode has no size either |
| TextOutSplitter.TextOutSplitter.QueryMode | EXYNOS7885Pkg/Drivers/ConSplitterDxe/ConSplitter.c:4782-4825 | Reports the size of a shared mode; a mode out of range or of size zero is unsupported |
| TextOutSplitter.TextOutSplitter.GrowMapTable | EXYNOS7885Pkg/Drivers/ConSplitterDxe/ConSplitter.c:2247-2326 | In the wider table every live row keeps its entries for the consoles there are, and all other entries are -1 |
| TextOutSplitter.TextOutSplitter.GrowOnce | EXYNOS7885Pkg/Drivers/ConSplitterDxe/ConSplitter.c:3168-3183 | The reported modes and the meaning of the map survive the change of the stride |
| TextOutSplitter.TextOutSplitter.AddOutputMode | EXYNOS7885Pkg/Drivers/ConSplitterDxe/ConSplitter.c:2339-2403 | The first console's modes are the shared ones, each mapped to itself, a failing mode 1 without size |
| TextOutSplitter.TextOutSplitter.FillColumn | EXYNOS7885Pkg/Drivers/ConSplitterDxe/ConSplitter.c:2510-2557 | After the nested search a row from 2 on has an entry just when one of the new console's modes first matches it, and the entry is such a mode |
| TextOutSplitter.TextOutSplitter.SyncOutputMode | EXYNOS7885Pkg/Drivers/ConSplitterDxe/ConSplitter.c:2490-2569 | After search and compaction the map is right for one more console and the reported modes are the old ones filtered by it |
| TextOutSplitter.TextOutSplitter.PreferredMode | EXYNOS7885Pkg/Drivers/ConSplitterDxe/ConSplitter.c:3058-3105 | The scan finds the configured size; with none configured, a supported mode that no supported mode exceeds in one direction while reaching it in the other |
| TextOutSplitter.TextOutSplitter.SetConsoleOutMode | EXYNOS7885Pkg/Drivers/ConSplitterDxe/ConSplitter.c:3051-3125 | The preferred mode is set, else the one to fall back on, else the mode stays; for every preferred mode it is stated whether the attempt succeeds and which modes it and the second attempt leave the consoles in |
| TextOutSplitter.SecondConsoleLeftBehind | EXYNOS7885Pkg/Drivers/ConSplitterDxe/ConSplitter.c:4866-4871 | Two consoles of a kind added one after the other: the splitter is in mode 2, the second console still in its mode 0 |
| TextOutSplitter.AddThenDelete | EXYNOS7885Pkg/Drivers/ConSplitterDxe/ConSplitter.c:3337-3457 | A console that comes and goes leaves the list of consoles, and with it the reported modes, as before |
| FlatTable.GetIntersection | EXYNOS7885Pkg/Drivers/ConSplitterDxe/ConSplitter.c:2422-2480 | The in-place compaction leaves rows 0 and 1 and, of the others, exactly those whose entry is not -1, in order, also when the entries are a column of the very table; the count and the current mode follow |
| FlatTable.CurrentModeFollowsItsRow | EXYNOS7885Pkg/Drivers/ConSplitterDxe/ConSplitter.c:2450-2475 | A current mode whose row stays is renumbered to that row, one whose row goes becomes -1, one out of range stays out of range |
| ModeMap.AfterSync | EXYNOS7885Pkg/Drivers/ConSplitterDxe/ConSplitter.c:2490-2569 | Column 0 stays increasing, every live entry from row 2 on is a mode of its console of the reported size, unused columns are -1, and the sizes are the filtered ones |
| ModeMap.MappedIntersect | EXYNOS7885Pkg/Drivers/ConSplitterDxe/ConSplitter.c:2443-2477 | Compaction keeps the map right |
| ModeMap.FollowedIsRenumber | EXYNOS7885Pkg/Drivers/ConSplitterDxe/ConSplitter.c:2448-2477 | The compaction gives the current mode the number of its row among the shared modes, as a function of the modes alone |
| ModeMap.ScanOffered | EXYNOS7885Pkg/Drivers/ConSplitterDxe/ConSplitter.c:2530-2554 | One mode looked up: the row it first matches, and no other, gets it as its entry |
| SharedModes.SharedIsIntersection | EXYNOS7885Pkg/Drivers/ConSplitterDxe/ConSplitter.c:2510-2566 | A size other than those of the first console's modes 0 and 1 is shared exactly when every console offers it |
| SharedModes.SharedLowModes | EXYNOS7885Pkg/Drivers/ConSplitterDxe/ConSplitter.c:2510-2525 | Modes 0 and 1 are the first console's; mode 1 loses its size just when some console's query for mode 1 fails |
| SharedModes.SharedInOrder | EXYNOS7885Pkg/Drivers/ConSplitterDxe/ConSplitter.c:2443-2477 | From mode 2 on the shared modes of any number of consoles are modes of the first console, in its order |
| SharedModes.SharedDiffer | EXYNOS7885Pkg/Drivers/ConSplitterDxe/ConSplitter.c:2539-2546 | Two consoles or more share no size twice from mode 2 on, nor one that mode 0 has, nor one that mode 1 has unless it has none |
| SharedModes.Mode1KeptThoughMissing | EXYNOS7885Pkg/Drivers/ConSplitterDxe/ConSplitter.c:2510-2525 | A console without any mode 1 does not clear it, contrary to what the intersection promises: a concrete pair of consoles |
| Lists.AddThenRemove | EXYNOS7885Pkg/Drivers/ConSplitterDxe/ConSplitter.c:3351-3375 | Removing what was added last leads back to the list before |
| StdErrSync.SyncSharedModes | EXYNOS7885Pkg/Drivers/ConSplitterDxe/ConSplitter.c:2641-2727 | After both compactions every output mode from 2 on is an error mode and the other way round, and no size that both had is lost; modes 0 and 1 and the order of the survivors stay; both current modes follow their rows and keep their sizes, or are 0 when these went |
| StdErrSync.MutualModes | EXYNOS7885Pkg/Drivers/ConSplitterDxe/ConSplitter.c:2641-2727 | With the marks that the nested search leaves, every survivor from 2 on of either list is among the survivors of the other |
| StdErrSync.CommonSurvive | EXYNOS7885Pkg/Drivers/ConSplitterDxe/ConSplitter.c:2641-2727 | A size that both lists have is in both after the sync |
| StdErrSync.Compact | EXYNOS7885Pkg/Drivers/ConSplitterDxe/ConSplitter.c:2703-2727 | The unmarked modes go; the current mode follows its row, keeps its size and no console changes; when that row went, mode 0 is set: which consoles change, and into which modes, as for SetMode |
| TextInSplitter.TextInSplitter.DoAll | EXYNOS7885Pkg/Drivers/ConSplitterDxe/ConSplitter.c:1954-4149 | Any run of registrations, withdrawals, keyboards added and reads: notifications, registrations on the keyboards, keyboards managed, queue and room are those of the state machine; each read asks exactly the keyboards managed at that time, with the flag in force, and only when the queue is empty; delivered and queued keys are the taken keys, in order |
| TextInput.RunKeepsInv | EXYNOS7885Pkg/Drivers/ConSplitterDxe/ConSplitter.c:1954-4149 | Over any run the live registrations are those of other clients and one for each notification and keyboard, no notification is useless, and there is room for all keys |
| TextInput.QueueOfRun | EXYNOS7885Pkg/Drivers/ConSplitterDxe/ConSplitter.c:3812-3920 | The queue after a run is the one its reads leave: no other operation touches it |
| TextInSplitter.TextInSplitter.RegisterKeyNotify | EXYNOS7885Pkg/Drivers/ConSplitterDxe/ConSplitter.c:4011-4095 | A key that an earlier notification with the same function covers is answered with the first such one; a new notification is the last in the list and live once on every keyboard under the handle kept; when storage fails or a keyboard refuses, everything is as before |
| TextInSplitter.TextInSplitter.UnregisterKeyNotify | EXYNOS7885Pkg/Drivers/ConSplitterDxe/ConSplitter.c:4111-4149 | The notification asked for is gone and every other one is still there, in order, with its handles; a registration stays live exactly when its handle is not one of that notification's; an unknown handle changes nothing |
| TextInSplitter.TextInSplitter.TextInExAddDevice | EXYNOS7885Pkg/Drivers/ConSplitterDxe/ConSplitter.c:1954-2043 | Every notification is registered on a new keyboard and its handle put in the new column; when storage runs out at any point or the keyboard refuses one, everything is as before but for the room gained |
| TextInput.RegisterEffect | EXYNOS7885Pkg/Drivers/ConSplitterDxe/ConSplitter.c:4034-4095 | What a registration does to the notifications and to the registrations live on the keyboards: covered, granted, or nothing changed |
| TextInput.UnregisterEffect | EXYNOS7885Pkg/Drivers/ConSplitterDxe/ConSplitter.c:4127-4149 | What a withdrawal leaves: all notifications but the one asked for and all live registrations but its own |
| TextInput.AddEffect | EXYNOS7885Pkg/Drivers/ConSplitterDxe/ConSplitter.c:1967-2030 | What a new keyboard changes: one handle more for each notification, live on it; without room, storage or consent only the room may grow |
| TextInSplitter.TextInSplitter.Grow | EXYNOS7885Pkg/Drivers/ConSplitterDxe/ConSplitter.c:1967-2000 | Handle lists, key queue and keyboard list grow together and keep what they hold; after a failure in the middle all still have the room that the common count says |
| TextInSplitter.TextInSplitter.RegisterEveryRow | EXYNOS7885Pkg/Drivers/ConSplitterDxe/ConSplitter.c:2006-2028 | All or nothing: the roll-back takes back exactly the registrations made so far |
| TextInSplitter.TextInSplitter.TextInExDeleteDevice | EXYNOS7885Pkg/Drivers/ConSplitterDxe/ConSplitter.c:2056-2079 | The keyboard is dropped from the list and nothing is taken back: the state stays valid exactly when there is no notification, and, in case the keyboard goes too with all it knew, exactly when it was the last in the list or there is no notification |
| TextInSplitter.TextInSplitter.ReadKeyStrokeEx | EXYNOS7885Pkg/Drivers/ConSplitterDxe/ConSplitter.c:3812-3920 | A queued key is delivered first. With an empty queue each keyboard is asked once, and delivered and queued are the keys of exactly the keyboards that answer with a key, partial ones only when exported, in the keyboards' order and all with one merged state |
| TextInSplitter.TextInSplitter.DequeueKey | EXYNOS7885Pkg/Drivers/ConSplitterDxe/ConSplitter.c:3521-3541 | The first key goes and the others move up |
| TextInSplitter.TextInSplitter.PollKeyboards | EXYNOS7885Pkg/Drivers/ConSplitterDxe/ConSplitter.c:3856-3897 | The keys queued and the state merged are those of the keyboards that answered, in their order; a keyboard with an error counts for nothing |
| KeyNotify.ExactlyOne | EXYNOS7885Pkg/Drivers/ConSplitterDxe/ConSplitter.c:4034-4088 | For each keyboard and notification there is exactly one live registration of ours, the one whose handle is kept |
| KeyNotify.NothingElsewhere | EXYNOS7885Pkg/Drivers/ConSplitterDxe/ConSplitter.c:4081-4088 | Nothing of ours is live on a keyboard that is not managed |
| KeyNotify.WithRow | EXYNOS7885Pkg/Drivers/ConSplitterDxe/ConSplitter.c:4064-4088 | The matrix with one more notification is right |
| KeyNotify.WithDevice | EXYNOS7885Pkg/Drivers/ConSplitterDxe/ConSplitter.c:2006-2030 | The matrix with one more keyboard is right |
| KeyNotify.WithoutRow | EXYNOS7885Pkg/Drivers/ConSplitterDxe/ConSplitter.c:4127-4141 | The matrix without one notification is right: no two notifications share a handle |
| KeyNotify.RemovalKeepsMatrix | EXYNOS7885Pkg/Drivers/ConSplitterDxe/ConSplitter.c:2066-2076 | A keyboard that is dropped and stays keeps its registrations: the matrix stays right exactly when there is no notification |
| KeyNotify.LossKeepsMatrix | EXYNOS7885Pkg/Drivers/ConSplitterDxe/ConSplitter.c:2066-2076 | A keyboard that is dropped and goes: the rows of handles do not close up with the list, so the matrix stays right exactly when it was the last or there is no notification |
| KeyNotify.TwoKeyboards | EXYNOS7885Pkg/Drivers/ConSplitterDxe/ConSplitter.c:2066-2076 | The four cases at two keyboards and one notification: three of them spoil the matrix |
| KeyQueue.NothingLost | EXYNOS7885Pkg/Drivers/ConSplitterDxe/ConSplitter.c:3521-3541 | Over any series of reads, delivered keys and queued keys are the taken keys, in order: none lost, none twice, none out of order |
| KeyQueue.AcceptedInOrder | EXYNOS7885Pkg/Drivers/ConSplitterDxe/ConSplitter.c:3856-3897 | No wanted key of a poll is lost and the keyboards' order is kept |
| KeyQueue.ReadFromEmpty | EXYNOS7885Pkg/Drivers/ConSplitterDxe/ConSplitter.c:3856-3920 | A read from an empty queue delivers or queues the key of every keyboard that answers with a scan code or a character, or with neither when partial keys are exported, in the keyboards' order, with one state; it delivers the first, or tells the state when there is none |
| KeyQueue.HeldSomewhere | EXYNOS7885Pkg/Drivers/ConSplitterDxe/ConSplitter.c:3866-3875 | A modifier or lock is set in the merged state just when a keyboard that answered with a valid state has it set |
| KeyQueue.HeldBits | EXYNOS7885Pkg/Drivers/ConSplitterDxe/ConSplitter.c:3866-3875 | The same bit by bit: a state counts with its highest bit set |
| GraphicsModes.GraphicsSplitter.DoAll | EXYNOS7885Pkg/Drivers/ConSplitterDxe/ConSplitter.c:2747-3038 | Over any run of outputs coming, going and mode settings, the listed modes are a function of the history, every output offers all of them, and while there are any all outputs are in the same listed mode: the one set last, as long as no other output has come since |
| GraphicsModes.GraphicsSplitter.AddGraphicsOutputMode | EXYNOS7885Pkg/Drivers/ConSplitterDxe/ConSplitter.c:2747-3038 | The first output's modes are listed as they are; with another one exactly those of the list stay that it offers too; all outputs are then in the new output's resolution if it is listed, else in 800 by 600 if that is, else in the first listed one |
| GraphicsModes.GraphicsSplitter.IntersectModes | EXYNOS7885Pkg/Drivers/ConSplitterDxe/ConSplitter.c:2832-2905 | The nested loops compute exactly that common part |
| GraphicsModes.GraphicsSplitter.Choose | EXYNOS7885Pkg/Drivers/ConSplitterDxe/ConSplitter.c:2918-2938 | The listed mode to use: the new output's own, else 800 by 600, else the first |
| GraphicsModes.GraphicsSplitter.SetMode | EXYNOS7885Pkg/Drivers/ConSplitterDxe/ConSplitterGraphics.c:105-196 | Every listed mode can be set: the search on each output ends below its number of modes and all outputs show the resolution; another number changes nothing |
| GraphicsModes.GraphicsSplitter.QueryMode | EXYNOS7885Pkg/Drivers/ConSplitterDxe/ConSplitterGraphics.c:32-88 | With one physical output its own mode is reported, else the listed one |
| GraphicsModes.GraphicsSplitter.Delete | EXYNOS7885Pkg/Drivers/ConSplitterDxe/ConSplitter.c:3351-3368 | An output that goes leaves the listed modes as they are |
| GraphicsModes.AlwaysOffered | EXYNOS7885Pkg/Drivers/ConSplitterDxe/ConSplitter.c:2788-2913 | Over any run, every listed resolution is offered by every output managed |
| GraphicsModes.CommonIsIntersection | EXYNOS7885Pkg/Drivers/ConSplitterDxe/ConSplitter.c:2840-2890 | A resolution is in the common list exactly when it is in the old list and offered |
| GraphicsModes.CommonInOrder | EXYNOS7885Pkg/Drivers/ConSplitterDxe/ConSplitter.c:2867-2890 | The common list has no resolution twice and keeps the order in which they first come |
| GraphicsModes.NumbersComeApart | EXYNOS7885Pkg/Drivers/ConSplitterDxe/ConSplitterGraphics.c:57-85 | When one of two outputs goes, QueryMode and SetMode can mean different resolutions by one number: a concrete pair of outputs |
| GraphicsModes.NumbersAgree | EXYNOS7885Pkg/Drivers/ConSplitterDxe/ConSplitterGraphics.c:57-85 | They mean the same for all numbers exactly when there is not one output, or the list is a first part of its own |
| GraphicsModes.NumbersAgreeAfterRemoval | EXYNOS7885Pkg/Drivers/ConSplitterDxe/ConSplitterGraphics.c:57-85 | When one of two outputs goes, QueryMode and SetMode agree afterwards exactly when what the two share is a first part of the modes of the one that stays |
| GraphicsModes.NumbersAgreeWithoutRemoval | EXYNOS7885Pkg/Drivers/ConSplitterDxe/ConSplitter.c:2788-2913 | As long as no output goes they mean the same |
| MmcQueue.MmcHost.DoAll | EXYNOS7885Pkg/Drivers/DwMmcHcDxe/DwMmcHcDxe.c:148-1301 | Any run of submissions, ticks, card changes, resets and stops: the driver's queue is where the state machine is, its invariant holds, and the blocks allocated are those of the pending requests |
| MmcQueue.MmcHost.ProcessAsyncTaskList | EXYNOS7885Pkg/Drivers/DwMmcHcDxe/DwMmcHcDxe.c:148-229 | One tick, on the first request only: completed with the status found, timed out, or left with one tick less |
| MmcQueue.MmcHost.CardRemoved | EXYNOS7885Pkg/Drivers/DwMmcHcDxe/DwMmcHcDxe.c:271-294 | Exactly the requests for slot 0 complete, with no media, in order; the others stay in order |
| MmcQueue.MmcHost.Drain | EXYNOS7885Pkg/Drivers/DwMmcHcDxe/DwMmcHcDxe.c:835-844 | All requests are aborted, first to last |
| MmcQueue.MmcHost.ResetDevice | EXYNOS7885Pkg/Drivers/DwMmcHcDxe/DwMmcHcDxe.c:1257-1301 | A reset aborts all requests; a slot disabled or empty is refused and nothing changes |
| MmcQueue.MmcHost.PassThru | EXYNOS7885Pkg/Drivers/DwMmcHcDxe/DwMmcHcDxe.c:946-965 | An asynchronous request joins the end of the queue, not started, with its whole time limit, or the call is refused and nothing changes |
| MmcQueue.MmcHost.Finish | EXYNOS7885Pkg/Drivers/DwMmcHcDxe/DwMmcHcDxe.c:216-226 | The request is removed, its packet has the status before the event is signalled, and its block is freed once |
| MmcQueue.RunKeepsInv | EXYNOS7885Pkg/Drivers/DwMmcHcDxe/DwMmcHcDxe.c:168-227 | Over all interleavings every request queued is pending once or completed once, only the first has been started, and the queue is in the order of submission |
| MmcQueue.PlacesKept | EXYNOS7885Pkg/Drivers/DwMmcHcDxe/DwMmcHcDxe.c:282-293 | No step loses a request, completes one twice or makes one up |
| MmcQueue.TicksAreFifo | EXYNOS7885Pkg/Drivers/DwMmcHcDxe/DwMmcHcDxe.c:168-227 | Over any run, card changes, resets and stops included, the requests that ticks complete are completed in the order of submission, each before all that are still pending |
| MmcQueue.HistoryIsComplete | EXYNOS7885Pkg/Drivers/DwMmcHcDxe/DwMmcHcDxe.c:168-227 | As long as requests are only submitted and ticked, completed and pending requests together are all requests in the order of submission |
| MmcQueue.TickedIsDone | EXYNOS7885Pkg/Drivers/DwMmcHcDxe/DwMmcHcDxe.c:215-226 | What a tick completes is what is added to the completions |
| MmcQueue.DoneOnlyGrows | EXYNOS7885Pkg/Drivers/DwMmcHcDxe/DwMmcHcDxe.c:168-227 | A completion is never taken back or changed |
| MmcQueue.QueueDrains | EXYNOS7885Pkg/Drivers/DwMmcHcDxe/DwMmcHcDxe.c:194-214 | Whatever the hardware answers, and whatever card changes, resets or stops come between, a queue of requests with finite limits and no new ones is empty after as many ticks as the timeouts plus one each add up to |
| MmcQueue.UnlimitedRequestWaits | EXYNOS7885Pkg/Drivers/DwMmcHcDxe/DwMmcHcDxe.c:194-201 | The limit must be finite: a request without one waits as long as the hardware is not ready |
| MmcHistory.TickOnHead | EXYNOS7885Pkg/Drivers/DwMmcHcDxe/DwMmcHcDxe.c:168-227 | After any run, told from the events alone: a tick completes the first request with no media without its card, with the hardware's own answer unless that is not ready, and else with a timeout exactly when it was submitted with a limit and has been first for as many ticks as the limit says; otherwise it stays first, and nothing else completes |
| MmcHistory.NeverLonger | EXYNOS7885Pkg/Drivers/DwMmcHcDxe/DwMmcHcDxe.c:194-214 | A request with a limit is first in the queue for at most one tick more than the limit says |
| MmcHistory.SubmitEffect | EXYNOS7885Pkg/Drivers/DwMmcHcDxe/DwMmcHcDxe.c:946-965 | A request goes to the end of the queue exactly when its slot is enabled and has a card and its block could be made |
| MmcHistory.RemovalEffect | EXYNOS7885Pkg/Drivers/DwMmcHcDxe/DwMmcHcDxe.c:271-294 | When the card goes, the requests for slot 0 complete with no media in their order and all others stay in theirs |
| MmcHistory.AbortEffect | EXYNOS7885Pkg/Drivers/DwMmcHcDxe/DwMmcHcDxe.c:835-844 | A stop, and a reset of a slot with a card, abort every pending request, in order |
| DmaTable.BuildDmaDescTable | EXYNOS7885Pkg/Drivers/DwMmcHcDxe/DwMmcHci.c:685-809 | The table, with its running and wrapping remainder, is line by line the one specified; the two refusals are exactly for data beyond 4 GiB and a table address above 4 GiB |
| DmaTable.BuffersTile | EXYNOS7885Pkg/Drivers/DwMmcHcDxe/DwMmcHci.c:761-806 | The buffers follow each other without gap or overlap from the data address on, each of 1 to 4096 bytes and owned by the controller, only the first marked first, only the last marked last; the last one interrupts and ends the chain, each other one names the line after it; together as long as BYTCNT |
| DmaTable.WalkVisitsAll | EXYNOS7885Pkg/Drivers/DwMmcHcDxe/DwMmcHci.c:761-809 | The controller's walk visits each descriptor once, in order, and stops, exactly when the last line can be addressed with 32 bits, which the driver does not check |
| DmaTable.WalkCutShort | EXYNOS7885Pkg/Drivers/DwMmcHcDxe/DwMmcHci.c:761-809 | Two buffers with their table at the end of the first 4 GiB: the driver accepts it and the walk ends after the first |
| DmaTable.Counts | EXYNOS7885Pkg/Drivers/DwMmcHcDxe/DwMmcHci.c:703-705 | The descriptors are as few as can hold the data, and BYTCNT exceeds the data by less than a block |
| DmaTable.CountedInBlocks | EXYNOS7885Pkg/Drivers/DwMmcHcDxe/DwMmcHci.c:761-772 | A transfer below a block is counted as it is, a longer one in whole blocks |
| DmaTable.ByteCountFits | EXYNOS7885Pkg/Drivers/DwMmcHcDxe/DwMmcHci.c:761-772 | BYTCNT holds the whole count except for data in the last block below 4 GiB |
| Fifo.ReadFifo | EXYNOS7885Pkg/Drivers/DwMmcHcDxe/DwMmcHci.c:839-924 | For every split of the stream into polls the read ends; a successful one has stored the stream in order, or its exact byte reversal; it fails only when a poll shows an error or the FIFO stays empty as long as the driver waits |
| Fifo.WriteFifo | EXYNOS7885Pkg/Drivers/DwMmcHcDxe/DwMmcHci.c:839-924 | A successful write has sent the buffer in order, or its exact byte reversal, any other a first part of it; it fails only when a poll shows an error or the controller asks for nothing as long as the driver waits |
| Fifo.WriteThenRead | EXYNOS7885Pkg/Drivers/DwMmcHcDxe/DwMmcHci.c:856-899 | What is written reversed and read reversed comes back unchanged |
| Fifo.ByteAt | EXYNOS7885Pkg/Drivers/DwMmcHcDxe/DwMmcHci.c:856-899 | Byte by byte: the words follow each other, lowest byte first |
| ClockDivisor.FindDivisor | EXYNOS7885Pkg/Drivers/DwMmcHcDxe/DwMmcHci.c:305-330 | The loop ends with 0 if the wanted frequency is not below the base, else with the least divisor whose clock does not exceed it; a wanted frequency of 0 is refused |
| ClockDivisor.DoubledDivisorFits | EXYNOS7885Pkg/Drivers/DwMmcHcDxe/DwMmcHci.c:317-321 | The doubled divisor leaves 32 bits for exactly one pair of frequencies |

## Left out

- Driver binding, events, protocol installation, variables and configuration values: they only carry the logic modelled here.
- Task priority levels: each critical section is one step.
- UGA display devices and the choice between them and graphics outputs.
- The colours' fourth byte, wide glyph bitmaps and the font data: a glyph is what the font service draws, and drawing is taken to succeed and to overwrite its cells.
- Transfers that cut a cell: the text window is aligned to the cells of the display, and the margin right of it is a whole cell or nothing.
- GraphicsConsole.GraphicsConsole.SetMode: a failed allocation also leaves the driver with a line buffer that was freed (GraphicsConsole.c:1374-1389); the model has only whether there is a line buffer.
- GraphicsConsole.GraphicsConsole.SetAttribute: called before any mode is set it would index the mode table with -1; the cursor is not visible then and the model draws nothing.
- GraphicsConsole.GraphicsConsole.DoAll: mode switches are taken to succeed; what their failures leave is stated at SetMode.
- TextModes.InitializeTextModes: modes 0 and 1 are fixed without a check that they fit; fit is claimed from mode 2 on.
- TextOutSplitter.TextOutSplitter.DoAll: runs without a console that belongs to the error splitter too, and the current mode after a deletion is not claimed, since the driver renumbers modes without it.
- TextOutSplitter.TextOutSplitter.GrowMapTable: allocation succeeds; a failure after the list has grown would leave the old stride.
- TextOutSplitter.TextOutSplitter.SetConsoleOutMode: the driver's assertions that the fall-back succeeds.
- TextOutSplitter.TextOutSplitter.SetMode: for modes 0 and 1 the mode of a console that is in the list more than once, and the status while a console is being added and some console is in none of its own modes.
- StdErrSync.SyncSharedModes: a shared console has been found; the search for it (ConSplitter.c:2618-2632) never goes back to the start of the inner list and is not modelled.
- Cursor, attribute and string output of the text splitter: they pass the call on to each console.
- TextInSplitter.TextInSplitter.DoAll: a keyboard that is dropped is not part of the runs, since the handles then no longer fit; what remains is stated at TextInExDeleteDevice.
- TextInSplitter.Keyboards.RegisterKeyNotify: a keyboard that answers a repeated registration with the handle it has given already, as this driver itself does (ConSplitter.c:4034-4044), counts as refusing.
- TextInSplitter.TextInSplitter.RegisterKeyNotify: the notifications are values with an identity; that the list of them is linked through the notifications themselves is not modelled, nor that a freed one's address may be used again.
- The toggle state that is sent to a new keyboard, the reset of the keyboards, pointer devices and the older input protocol.
- GraphicsModes.GraphicsSplitter.AddGraphicsOutputMode: pixel formats and frame buffer addresses; the list has room for one entry even when it is empty, which the driver reads and writes then.
- Null arguments of the services.
- MmcQueue.MmcHost.PassThru: synchronous requests, which wait for an empty queue, and the block that is not freed when its creation fails (DwMmcHci.c:1040-1041).
- MmcQueue.MmcHost.CardRemoved: card changes are events of a removable slot; that a slot of another kind has none is not modelled, nor are the error paths of the card detection.
- MmcQueue.MmcHost.ProcessAsyncTaskList: which DMA table a queued request uses, since the controller's registers are written when a request is created.
- DmaTable.BuildDmaDescTable: allocation and mapping of the table succeed; a length of 0 never gets there.
- Fifo.ReadFifo: the card sends no more words than the transfer is long; the driver bounds each drain by the whole length, not by what is left of it. The length is a multiple of 4.
- Fifo.WriteFifo: no claim that a write ends, since the driver renews its timeout without progress: the polls are a finite sequence, and the write may be unfinished when they are over.
- The bus commands, register programming and busy-waiting of the MMC host, the button, keypad, pin, logo and early start-up drivers: thin wrappers, tables, or code on libraries that are not part of this model.
