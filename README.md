# ice: a verified model of the line editor's core

ice is a terminal editor for composing shell commands line by line. Its core is
a doubly-linked list of heap-allocated, NUL-terminated line buffers. It has three
such copies: a private one in `ice.c`, `lines.c` (nodes carry a `selected` flag)
and `command.c` (the same code under `Cmd` names). On top of them sit the
edit-mode key handling of `handle_events` (a current line `cl` and a cursor
offset `cp`, changed in place), the two-mode machine (edit and menu), and the
scroll and cell computation of `draw_screen`.

The model is written in Dafny, file by file:

- `support.dfy` (Support): distinctness of sequences and the slice helpers that
  describe list surgery (`Without`, `Within`).
- `text.dfy` (Text): C strings (`StrLen`, a NULL text as `None`), the export
  format (every line followed by a newline) and splitting text back into lines.
- `memory.dfy` (Memory): `memmove`, `memset` and `realloc` over `array<char>`.
- `ice_list.dfy` (IceList): `ice.c`'s `Line` and `LineList` as classes.
  - A node has `cap`, `len`, `buf: array<char>`, `prev` and `next`.
  - A list has `head` and `tail`, plus ghost `Nodes`, `Bufs` and `Contents`.
  - `Line.Valid` is the buffer invariant: `cap == buf.Length`, `len < cap`,
    `buf[len]` is NUL and there is no NUL before it.
  - `LineList.Valid` is the list invariant: the ends, both link directions,
    no sharing, and every node holding its text.
  - The in-place buffer edits of `handle_events` (memmove, memset, strcat,
    realloc growth) are `Line` methods.
  - The `*In` methods apply one buffer edit to a node of a list and keep the
    list invariant.
- `lines.dfy` (Lines) and `commands.dfy` (Commands): the same list for
  `lines.c` (contents are `Entry(text, selected)`, with `linelist_foreach` and
  the two print callbacks) and for `command.c` (with `cmdlist_traverse` and
  `cmdlist_print`).
- `edit_model.dfy` (EditModel): what each key does, on values.
  - The buffer is `Doc(lines, row, cp)`: the lines, the index of the current
    line and the cursor.
  - `Wf` is the editor's invariant: at least one line, the cursor within the
    current line, only `valid_char` characters.
  - `Handle` dispatches one event in either mode.
- `edit_properties.dfy` (EditProperties): what the keys promise, proved on the
  value model. Backspace undoes typing and Tab, the merge conserves every
  character, Enter followed by Backspace restores the line, cursor motions undo
  each other, and which keys end the loop and toggle the mode.
- `ice.dfy` (Ice): `g_state` as a class `State` (`m`, `lines`, `cl`, `cp`, and
  a ghost `row`). Every key handler is a method proved to leave the state equal
  to the EditModel function applied to the state before, so the EditModel
  properties hold of the imperative editor.
- `viewport.dfy` (Viewport): the edit-mode half of `draw_screen`.
  - It computes `vshift` and `hshift` in explicit `size_t` arithmetic (modulo
    2^64).
  - It counts the current line's index by walking the list.
  - It computes the cells drawn per line as values (`Cell(x, y, ch, cursor)`).
  - It proves that, on a terminal of at least two rows and one column, the
    cursor is on screen and drawn on the right character. Every cell shows the
    character at its shifted position, and only the cursor's cell has the
    cursor's colours.

Notes on the code's behaviour:

- `valid_char` accepts only letters, digits, `.`, `-`, `_`, `/` and space; any
  other character typed in edit mode is ignored.
- Ctrl+Left at `cp == 0` and Ctrl+Right at `cp == len` do change line (the
  modifier is only looked at inside the line), as the plain arrows do.
- The lines of `ice.c` have no `selected` field; `tui_loop` prints every line
  after its loop, whatever key ended it. The menu's `e`/`E` return to edit
  mode like `q`/`Q`, and `y`/`Y`/`n`/`N` both just end the loop.
- The scroll arithmetic is unsigned. On a terminal under two rows or zero
  columns, `th - 2` and `tw - 1` wrap around and nothing is scrolled. The
  on-screen property is proved for `th >= 2` and `tw >= 1`, and the wrapped
  case is stated as it behaves.

## Model

| member | source | states |
|---|---|---|
| Text.StrLen | ice.c:47-57 | the length strlen finds: no NUL before it, a NUL at it (or the end of the text) |
| Text.CStringOfText | ice.c:47-57 | a NUL-free text is its own C string, so a copied line keeps all of it |
| Text.PrintLine | ice.c:179-184 | a line printed with its newline, holding no newline itself, is found again up to that newline and reads back as that one line |
| Text.Export | ice.c:188-192 | the printed list is empty exactly when the list is, and otherwise ends with a newline |
| Text.SplitExport | command.c:141-154 | exporting lines that hold no newline and splitting the output at newlines gives the same lines back |
| Memory.MemMove | ice.c:392-394 | memmove with overlapping regions: the destination holds the source bytes as they were before, and every other byte is unchanged |
| Memory.MemSet | ice.c:447 | exactly the n bytes from `at` become the fill byte, nothing else changes |
| Memory.Realloc | ice.c:411-417 | a fresh buffer of the requested size whose first bytes are the old buffer's |
| IceList.Line.constructor | ice.c:46-68 | the text is copied up to its first NUL (NULL gives the empty line), `cap == len + 16`, the terminator is in place, the node is unlinked |
| IceList.Line.InsertChar | ice.c:541-561 | the character lands at `at` with the suffix after it; the buffer doubles exactly when `len + 1 == cap`; the buffer invariant holds after |
| IceList.Line.InsertTab | ice.c:432-452 | TAB_WIDTH spaces land at `at` with the suffix after them; the growth rule `len + TAB_WIDTH >= cap` gives `(len + TAB_WIDTH) * 2`; the invariant holds after |
| IceList.Line.Cut | ice.c:381-405 | the text loses exactly [from, to) while cap and buffer stay; the terminator moves with the suffix |
| IceList.Line.Append | ice.c:406-421 | strcat: the other line's text is appended; the growth rule `newlen + 1 >= cap` gives `(newlen + 1) * 2`; the invariant holds after |
| IceList.Line.Truncate | ice.c:478-479 | the text becomes its prefix up to `at`, with a terminator written there |
| IceList.Line.ScanWordLeft | ice.c:383-388 | the two while loops stop where WordLeft (spaces, then a word, to the left) says |
| IceList.Line.ScanWordRight | ice.c:509-515 | the two while loops stop where WordRight (a word, then spaces, to the right) says, never past `len` |
| IceList.LineList.constructor | ice.c:78-87 | an empty, well-formed list |
| IceList.LineList.Append | ice.c:105-117 | the new line becomes the last one, earlier lines and their order are unchanged, and the list stays well formed |
| IceList.LineList.Link | ice.c:105-117 | the pointer updates: an empty list gets head == tail == node; otherwise the old tail links to the new tail |
| IceList.LineList.InsertAfter | ice.c:137-158 | the new line sits right after the anchor and is returned; tail moves only if the anchor was the tail; head never moves; a NULL list or anchor returns NULL and changes nothing |
| IceList.LineList.Splice | ice.c:137-158 | the pointer updates of insert-after, link by link |
| IceList.LineList.Remove | ice.c:119-135 | exactly that line leaves the list, the others keep their order, head and tail are repaired; NULL is a no-op |
| IceList.LineList.Unlink | ice.c:119-135 | the pointer updates of remove, link by link |
| IceList.LineList.Traverse | ice.c:162-177 | the callback runs on every node once, head to tail; the output is the callbacks' outputs in order |
| IceList.LineList.Print | ice.c:179-192 | the output is the export of the lines: each line followed by a newline, in order |
| IceList.LineList.CutIn | ice.c:381-405 | a cut inside one line of a list changes that line's text alone and keeps the list well formed |
| IceList.LineList.InsertCharIn | ice.c:541-561 | a typed character changes one line's text alone and keeps the list well formed |
| IceList.LineList.InsertTabIn | ice.c:432-452 | a Tab changes one line's text alone and keeps the list well formed |
| IceList.LineList.AppendIn | ice.c:406-421 | strcat of one line onto another changes only the first line's text |
| IceList.LineList.TruncateIn | ice.c:478-479 | truncating one line of a list changes that line alone |
| IceList.LineList.SplitIn | ice.c:455-485 | Enter: a line holding the new text follows the line, which is cut at the cursor; the rest is untouched |
| IceList.LineList.MergeIn | ice.c:406-426 | the merge: the previous line becomes both texts joined, the current line leaves the list, the rest is untouched |
| IceList.EditedValid | ice.c:381-561 | an in-place edit of one node's buffer keeps the list invariant |
| IceList.InsertedValid | ice.c:137-158 | the state insert-after leaves behind satisfies the list invariant |
| IceList.RemovedValid | ice.c:119-135 | the state remove leaves behind satisfies the list invariant |
| IceList.AppendedValid | ice.c:105-117 | the state append leaves behind satisfies the list invariant |
| EditModel.ValidCharAccepted | ice.c:299-309 | valid_char accepts exactly the characters of a separate list (both alphabets, the digits, `.`, `-`, `_`, `/` and the blank), so nothing outside ' '..'z' |
| EditModel.ValidTextIsPlain | ice.c:299-309 | text made of valid_char characters holds neither a NUL nor a newline |
| EditModel.LeadingSpaces | ice.c:462 | strspn(buf, " "): every character before the count is a space, the one at the count is not |
| EditModel.SkipSpacesLeft | ice.c:386 | the scan stops after a maximal run of spaces to the left |
| EditModel.SkipWordLeft | ice.c:388 | the scan stops after a maximal run of non-spaces to the left |
| EditModel.SkipWordRight | ice.c:512 | the scan stops after a maximal run of non-spaces to the right |
| EditModel.SkipSpacesRight | ice.c:514 | the scan stops after a maximal run of spaces to the right |
| EditModel.WordLeftSpan | ice.c:383-390 | from inside a line the left word scan always moves, over a word followed by spaces, and stops at a word start |
| EditModel.WordRightSpan | ice.c:509-515 | from inside a line the right word scan always moves, over a word followed by spaces |
| EditModel.Initial | ice.c:585-590 | the start-up buffer (one empty line, cursor at 0) satisfies the invariant |
| EditModel.InsertChar | ice.c:541-561 | an accepted character lands at the cursor, which moves one to the right, and no other line changes; any other character changes nothing; the buffer invariant holds |
| EditModel.InsertTab | ice.c:432-452 | Tab keeps the buffer invariant |
| EditModel.Cut | ice.c:381-405 | cutting part of the current line keeps the invariant |
| EditModel.Merge | ice.c:406-426 | merging into the previous line keeps the invariant |
| EditModel.DeleteLeft | ice.c:373-429 | Backspace, Backspace2 and Ctrl+W keep the invariant |
| EditModel.Split | ice.c:455-485 | Enter keeps the invariant, including the cursor landing within the new line |
| EditModel.Left | ice.c:487-504 | Left keeps the cursor within the current line |
| EditModel.Right | ice.c:506-523 | Right keeps the cursor within the current line |
| EditModel.Up | ice.c:525-531 | Up keeps the cursor within the current line |
| EditModel.Down | ice.c:533-539 | Down keeps the cursor within the current line |
| EditModel.EditKey | ice.c:367-562 | every edit-mode key keeps the invariant |
| EditModel.Handle | ice.c:318-371 | every event, in either mode, keeps the invariant |
| EditProperties.BackspacesUndoInsert | ice.c:373-405 | one Backspace per inserted character removes a block inserted at the cursor and restores the buffer |
| EditProperties.BackspaceUndoesInsertChar | ice.c:541-561 | Backspace undoes typing an accepted character |
| EditProperties.BackspacesUndoTab | ice.c:432-452 | TAB_WIDTH Backspaces undo a Tab |
| EditProperties.InsertUndoesBackspace | ice.c:399-405 | typing the character Backspace removed restores the line and the cursor |
| EditProperties.BackspaceRemovesOne | ice.c:399-405 | Backspace inside a line removes exactly the character before the cursor, and the line gets one shorter |
| EditProperties.WordDeleteSpan | ice.c:382-398 | Ctrl+W removes in one cut the spaces before the cursor and the word before them; the cut is never empty; the cursor lands at its start |
| EditProperties.DeleteAtLineStart | ice.c:406-426 | at cp == 0 with a previous line: one line fewer, the two joined, no character lost or duplicated, the cursor at the same character; on the first line nothing changes |
| EditProperties.SplitShape | ice.c:455-485 | Enter: the line is cut at the cursor; the next line holds the indentation as spaces then the cut-off part; the other lines are untouched; the cursor lands within the new line |
| EditProperties.MergeUndoesSplit | ice.c:406-485 | on an unindented line, Backspace right after Enter restores the buffer |
| EditProperties.RightUndoesLeft | ice.c:487-523 | a plain Right undoes a plain Left that moved, also across lines |
| EditProperties.LeftUndoesRight | ice.c:487-523 | a plain Left undoes a plain Right that moved, also across lines |
| EditProperties.VerticalMotion | ice.c:525-539 | Up and Down move one line and clamp the cursor to that line; Down undoes Up when the cursor fitted |
| EditProperties.CtrlMotion | ice.c:487-523 | inside the line, Ctrl+arrows move within it by a word scan; at the edge they act as the plain arrows and change line |
| EditProperties.ExportRoundTrip | ice.c:179-192 | the editor's buffer always exports to text that splits back into the same lines |
| EditProperties.QuitKeys | ice.c:318-361 | the loop ends exactly on Ctrl+C in any mode, or on y/Y/n/N in the menu, and ending changes nothing |
| EditProperties.EscToggles | ice.c:326-371 | Esc switches the mode and keeps the buffer; two presses change nothing |
| EditProperties.OnlyEditModeEdits | ice.c:326-371 | the buffer changes only on an edit-mode key other than Esc and Ctrl+C; the mode changes only on Esc or q/Q/e/E in the menu |
| Ice.State.constructor | ice.c:585-590 | start-up: edit mode, one empty line which is current, cursor at 0 |
| Ice.State.CutBack | ice.c:390-404 | the memmove of Backspace and Ctrl+W, as EditModel.Cut |
| Ice.State.MergeUp | ice.c:406-426 | the merge in place, as EditModel.Merge |
| Ice.State.DeleteLeft | ice.c:373-429 | Backspace, Backspace2 and Ctrl+W in place, as EditModel.DeleteLeft |
| Ice.State.InsertTab | ice.c:432-452 | Tab in place, as EditModel.InsertTab |
| Ice.State.InsertChar | ice.c:541-561 | the default branch in place, as EditModel.InsertChar |
| Ice.State.Split | ice.c:455-485 | Enter in place, as EditModel.Split |
| Ice.State.Left | ice.c:487-504 | Arrow Left in place, as EditModel.Left |
| Ice.State.Right | ice.c:506-523 | Arrow Right in place, as EditModel.Right |
| Ice.State.Up | ice.c:525-531 | Arrow Up in place, as EditModel.Up |
| Ice.State.Down | ice.c:533-539 | Arrow Down in place, as EditModel.Down |
| Ice.State.EditKey | ice.c:367-562 | the edit-mode dispatch in place, as EditModel.EditKey |
| Ice.State.HandleEvent | ice.c:311-570 | one event: new state and quit flag as EditModel.Handle gives, with the state's invariant kept |
| Lines.Line.constructor | lines.c:8-32 | the text is copied up to its first NUL (NULL gives the empty line), `cap == len + 16`, the node is unselected and unlinked |
| Lines.LineList.constructor | lines.c:42-51 | an empty, well-formed list |
| Lines.LineList.Append | lines.c:69-81 | the new unselected line becomes the last one, earlier lines unchanged, the list well formed |
| Lines.LineList.Link | lines.c:69-81 | the pointer updates: an empty list gets head == tail == node; otherwise the old tail links to it |
| Lines.LineList.InsertAfter | lines.c:101-122 | the new line sits right after the anchor and is returned; tail moves only if the anchor was the tail; head never moves; NULL list or anchor returns NULL and changes nothing |
| Lines.LineList.Splice | lines.c:101-122 | the pointer updates of insert-after, link by link |
| Lines.LineList.Remove | lines.c:83-99 | exactly that line leaves, the rest keep their order, head and tail repaired; NULL is a no-op |
| Lines.LineList.Unlink | lines.c:83-99 | the pointer updates of remove, link by link |
| Lines.LineList.Foreach | lines.c:126-141 | the callback runs on every node once, head to tail; the output is the callbacks' outputs in order |
| Lines.CbPrint | lines.c:143-148 | the callback writes the line so that it reads back as that line when it holds no newline |
| Lines.CbPrintSelected | lines.c:150-154 | read back, the output gives a newline-free line itself when it is selected and no line at all otherwise; it is the print callback's output with characters left out |
| Lines.PrintAll | lines.c:143-148 | foreach with the print callback writes the export of every line |
| Lines.PrintSelected | lines.c:150-154 | foreach with the selected-print callback writes the export of exactly the selected lines, in list order |
| Lines.SelectedWithinAll | lines.c:143-154 | the selected output is the full output with characters left out, and equals it when every line is selected |
| Commands.Cmd.constructor | command.c:8-30 | the text is copied up to its first NUL (NULL gives the empty command), `cap == len + 16`, the node is unlinked |
| Commands.CmdList.constructor | command.c:40-49 | an empty, well-formed list |
| Commands.CmdList.Append | command.c:67-79 | the new command becomes the last one, earlier ones unchanged, the list well formed |
| Commands.CmdList.Link | command.c:67-79 | the pointer updates: an empty list gets head == tail == node; otherwise the old tail links to it |
| Commands.CmdList.InsertAfter | command.c:99-120 | the new command sits right after the anchor and is returned; tail moves only if the anchor was last; NULL list or anchor returns NULL and changes nothing |
| Commands.CmdList.Splice | command.c:99-120 | the pointer updates of insert-after, link by link |
| Commands.CmdList.Remove | command.c:81-97 | exactly that command leaves, the rest keep their order, head and tail repaired; NULL is a no-op |
| Commands.CmdList.Unlink | command.c:81-97 | the pointer updates of remove, link by link |
| Commands.CmdList.Traverse | command.c:124-139 | the callback runs on every node once, head to tail; the output is the callbacks' outputs in order |
| Commands.CmdList.Print | command.c:141-154 | the output is every command followed by a newline, in order; with no newline inside a command, splitting it at newlines gives the commands back |
| Viewport.AsSize | ice.c:244-254 | a conversion to size_t leaves a value in range unchanged and never makes a non-negative one larger |
| Viewport.VShift | ice.c:249-250 | with th >= 2 the current line lands on rows 0..th-2, on the last of them whenever the list is scrolled; with th < 2, `th - 2` wraps and nothing is scrolled |
| Viewport.HShift | ice.c:253-254 | the shift never passes the cursor; with tw >= 1 the cursor lands on columns 0..tw-1, on the last whenever the line is scrolled; with tw == 0 nothing is scrolled |
| Viewport.LineIndex | ice.c:243-248 | counting nodes from head to the current line gives the current line's position (as a size_t) |
| Viewport.DrawLine | ice.c:262-281 | the cells one line draws from column hshift on, the cursor's colours at cp, and the cursor's blank after the current line |
| Viewport.DrawRow | ice.c:260-281 | a line above vshift draws nothing; any other draws its cells on row y - vshift |
| Viewport.DrawLines | ice.c:256-282 | the loop over the list draws every line's cells, in list order |
| Viewport.DrawEdit | ice.c:241-283 | the shifts are VShift and HShift of the current line's index and the cursor, and the drawn cells are the plan for the buffer |
| Viewport.SpanCells | ice.c:263-271 | each character from column hshift on has its cell at column x - hshift, in the cursor's colours exactly at cp on the current line, and there is no other cell |
| Viewport.LineCellsMeaning | ice.c:262-276 | a line draws its characters' cells, the cursor's blank after them when it is current with the cursor at its end, and nothing else |
| Viewport.PlanShows | ice.c:256-282 | every cell of the plan shows the character at its shifted position, with the cursor's colours only at the cursor |
| Viewport.RowCellsShow | ice.c:258-282 | every cell a line draws shows the character at its shifted position, with the cursor's colours exactly at the cursor |
| Viewport.LineCellsHaveCursor | ice.c:262-276 | the current line draws the cursor's cell on the character under the cursor, or a blank at the line's end |
| Viewport.PlanDrawsCursor | ice.c:256-282 | with shifts that do not pass the cursor, the plan draws the cursor on its character, and every cell shows its shifted character |
| Viewport.CursorOnScreen | ice.c:247-282 | on a terminal of at least 2 rows and 1 column, `line - vshift <= th - 2` and `cp - hshift <= tw - 1`, and the plan draws the cursor as it should |
| Viewport.SpanSnoc | ice.c:263-271 | drawing one more character adds its cell at the end |

## Left out

- Termbox I/O (`tb_init`, `tb_poll_event`, `tb_set_cell`, `tb_printf`, `tb_present`, `tb_shutdown`) is terminal I/O. An event is a parameter and the drawn cells are a returned value.
- The menu box and the status line of `draw_screen` are fixed text drawn through termbox, so they are not modelled.
- `tui_loop`'s blocking loop and `main` are not modelled; one event is handled per call of `HandleEvent`.
- `die` and the allocation-failure branches are not modelled: allocation always succeeds.
- `line_free`, `linelist_free` and `cmdlist_free` are not modelled, because memory release has no Dafny counterpart.
- `fprintf` to a `FILE*` is modelled as a returned character sequence.
- `print_err` has no behaviour, so it is not modelled.
- Colours are modelled only as the `cursor` flag of a cell; the colour constants of config.h are not.
- A callback's `void *ctx` is not modelled: a callback is a function from a line to the bytes it writes.
- Ice.State.MergeUp: reads `cur->len` before the merge and sets `cp := prev.len - curlen`. The code reads `cur->len` after `strcat`, where it is unchanged, so the value is the same.
- Viewport.DrawLines: the drawing row counter `y` is an unbounded `nat`. In the code it is a `size_t`; no list reaches 2^64 lines.
- Viewport.VShift: the wrapped case for `th < 2` is stated only for line indices below 2^64 - 2 + th. Larger indices cannot be reached.
