# edit: a verified model of the buffer, keys and redraw of a tiny terminal editor

`edit.c` is a one-file curses editor. It loads a file into one `malloc`
block of `file_size + 1` chars. The content is everything before the first
zero byte (the sentinel). Keystrokes insert at, or delete before, the
offset `current_position`. `redraw()` repaints the screen from the buffer
after every key. On Ctrl-C, `save_file()` writes the content back, adding a
trailing newline when the content has none and the buffer is not full.

This project models that core in Dafny:

- `sentinel.dfy` (module `Sentinel`): bytes, the sentinel convention,
  `RealSize` (first zero byte) and the well-formedness of an allocation
  (a zero spare byte and zero filler after the sentinel).
- `text_buffer.dfy` (module `TextBuffer`): the capacity rule; loading;
  `add_to_buffer`, `remove_from_buffer` and `append_newline_to_buffer` as
  functions from one allocation image to the next; the bytes a save writes.
  Lemmas state what each operation does to the content.
- `cursor.dfy` (module `Cursor`): the left and right arrow rules.
- `key_dispatch.dfy` (module `KeyDispatch`): the main loop as a step
  function over input events, with the properties that combine operations.
- `render.dfy` (module `Render`): the text walk of `redraw()` as a pure
  projection from the usable bytes, the cursor, `top_row`, `LINES` and `COLS`
  to the cells drawn and the hardware cursor target.
- `editor.dfy` (module `Editor`): class `Editor`, with the array `buffer`
  (all `file_size + 1` bytes), `capacity` (`file_size`), `position`
  (`current_position`) and `topRow` (`top_row`). Each C function is a method
  with the C loops, proved against the functions above.

Some behaviour of the code is easy to misread; the model follows the code:

- A character is drawn when `local_row <= top_row + LINES - 1`. This bound
  grows with `top_row` and does not subtract the menu and border rows, so it
  is not a viewport-height test (`Render.Drawable`).
- `local_col` advances only when a character is drawn.
- For "ab\ncd" with `top_row = 0`, the code puts the cursor at (2, 4) for
  offset 2 (the newline) and at (3, 2) for offset 3
  (`Render.CursorOnSecondLine`).
- The right arrow moves only when the byte after the cursor is nonzero, so
  it never reaches the offset just past the content
  (`KeyDispatch.RightArrowStopsShort`). No other key gets there either: a
  cursor before the end of the content stays before it after every event
  until the buffer is full (`KeyDispatch.StaysBeforeEnd`). A load puts the
  cursor at 0, so a non-empty file can be extended at its end only after the
  buffer has been full once, which takes at least 32768 keystrokes at the
  default size: typing on the last byte of a full buffer leaves the cursor
  at the end of the content (`KeyDispatch.EndThroughFullBuffer`).
- The up and down arrows do nothing, and `top_row` is never changed.

## Model

| member | source | states |
|---|---|---|
| Sentinel.RealSize | edit.c:135-140 | the content length is the offset of the first zero byte, every byte before it is nonzero, and it is the whole length when no zero byte exists |
| Sentinel.WindowSize | edit.c:135-140 | scanning only the `file_size` usable bytes finds the same first zero byte as scanning the whole allocation, because the spare byte is zero |
| TextBuffer.Capacity | edit.c:170-174 | `file_size` is 65536 plus the file length when the file is longer than 32768 bytes; it is never below 65536, leaves at least 32768 free bytes, and stays 65536 exactly for files of at most 32768 bytes |
| TextBuffer.ReadInto | edit.c:177-178 | after `fread` into a fresh block, byte i is the file's byte i before the end of the file, and the block's previous byte from there on |
| TextBuffer.StaleByteAfterFile | edit.c:177-178 | if the block's old byte just after the file is nonzero, the content runs past the file and is no longer the file |
| TextBuffer.Loaded | edit.c:177-178 | loading into a zeroed block is `ReadInto` over an all-zero block |
| TextBuffer.LoadedText | edit.c:170-178 | a loaded buffer keeps the file up to its first zero byte; a file without zero bytes loads well formed, with exactly its own bytes as content |
| TextBuffer.Inserted | edit.c:108-114 | the allocation after `add_to_buffer` keeps its length, the bytes before the cursor and the spare byte, and holds `ch` at the cursor |
| TextBuffer.InsertedText | edit.c:108-114 | with room left, inserting at cursor p gives content `old[..p] + [ch] + old[p..]`, one byte longer; in a full buffer the same sequence is cut to `file_size` bytes; the result stays well formed |
| TextBuffer.Removed | edit.c:116-123 | the allocation after `remove_from_buffer` keeps its length, is unchanged at cursor 0, and keeps every byte from the old sentinel on |
| TextBuffer.RemovedText | edit.c:116-123 | backspace at p > 0 gives content `old[..p-1] + old[p..]`, one byte shorter; no byte from the old sentinel on is touched; the result stays well formed |
| TextBuffer.WithNewline | edit.c:125-133 | normalisation changes at most the byte at the first zero byte, and that byte ends up zero or a newline |
| TextBuffer.WithNewlineAsWritten | edit.c:125-133 | the code as written also changes at most that one byte, to zero or a newline |
| TextBuffer.WithNewlineText | edit.c:125-133 | a full buffer, or content that already ends in a newline, is unchanged; otherwise exactly one newline is appended, and this includes empty content; afterwards the content ends in a newline or fills the buffer |
| TextBuffer.WithNewlineIdempotent | edit.c:125-133 | normalising twice equals normalising once |
| TextBuffer.NewlineReadsBeforeBuffer | edit.c:125-133 | the code as written agrees with the corrected rule except on empty content; there, when the byte before the buffer is a newline, nothing is appended, while the corrected save writes one newline |
| TextBuffer.SaveBytes | edit.c:142-145 | the bytes saved start with the whole content, number fewer than the allocation's bytes, and hold no zero byte |
| TextBuffer.SaveBytesText | edit.c:142-145 | a save writes the content plus one newline only when there is room and the content does not end in a newline; it writes at most `file_size` bytes and never a zero byte |
| TextBuffer.SaveTwice | edit.c:142-145 | a second save would write the same bytes as the first (the program saves once, at exit) |
| Cursor.MoveLeft | edit.c:217-220 | the left arrow moves back exactly one place, except at 0, where it stays |
| Cursor.MoveRight | edit.c:215-216 | the right arrow stays or moves one place, stays inside the allocation, and moves only onto a nonzero byte |
| Cursor.MoveRightSpec | edit.c:215-216 | the right arrow moves exactly one place when the cursor is at least two bytes before the sentinel, otherwise it stays; when it moves, it lands on a content byte |
| KeyDispatch.Insert | edit.c:108-114 | typing keeps the allocation's length; it changes nothing exactly when the cursor is past every usable byte, and otherwise writes the byte at the cursor and advances the cursor |
| KeyDispatch.InsertAsWritten | edit.c:108-114 | as written, typing always writes the byte at the cursor and advances the cursor, even past every usable byte |
| KeyDispatch.Backspace | edit.c:116-123 | backspace keeps the allocation's length, moves the cursor as the left arrow does, and changes nothing at cursor 0 |
| KeyDispatch.Step | edit.c:204-224 | no event changes the allocation's length or moves the cursor forward by more than one; arrow and other escape sequences leave the buffer alone |
| KeyDispatch.InsertEffect | edit.c:108-114 | typing keeps the state consistent; the content and cursor change as above in each of the three cases of room; at a cursor past every usable byte the state is unchanged |
| KeyDispatch.FullBufferOverrun | edit.c:108-114 | as written, with one free byte and the cursor at the end, two keystrokes leave no zero byte in the whole allocation and the cursor one past it |
| KeyDispatch.BackspaceEffect | edit.c:116-123 | at offset 0 nothing changes; otherwise the byte before the cursor is deleted, the cursor moves back one, and the filler is untouched |
| KeyDispatch.ArrowEffect | edit.c:208-222 | arrow keys never change the buffer; left and right behave as above; up, down and any other code change nothing |
| KeyDispatch.StepConsistent | edit.c:204-224 | every event keeps the buffer well formed and the cursor inside the content |
| KeyDispatch.TypeThenErase | edit.c:108-123 | in a buffer that is not full, typing a byte and then backspacing restores the whole allocation and the cursor |
| KeyDispatch.StaysBeforeEnd | edit.c:204-224 | a cursor before the end of the content stays before it after any event, unless the buffer is then full |
| KeyDispatch.EraseAtEnd | edit.c:116-123 | backspace at the end of non-empty content drops its last byte and leaves the cursor at the new end |
| KeyDispatch.EraseAllThenSave | edit.c:116-145 | "a\nb" loaded at the default size, with the cursor at 3 and three backspaces, leaves the cursor at 0, and the save writes a single newline (reached from a load only through a full buffer) |
| KeyDispatch.EndThroughFullBuffer | edit.c:108-114 | in a full buffer with the cursor on the last usable byte, typing keeps the buffer full and leaves the cursor at the end of the content |
| KeyDispatch.TruncatedSave | edit.c:142-145 | "hi" in a ten-byte buffer saves as exactly "hi\n" |
| KeyDispatch.RightArrowStopsShort | edit.c:215-216 | with "a\nb" loaded and the cursor on the 'b', the right arrow does not move to the end of the content |
| Render.Advance | edit.c:90-99 | one byte moves the pen down a row exactly when it is a newline; any other byte keeps the row and advances the column by at most one |
| Render.PenAt | edit.c:79-101 | the pen never goes above row `-top_row` nor left of column 0 |
| Render.CellFor | edit.c:96-98 | a byte draws at most one cell, exactly when it is not a newline and the pen passes the drawing test; the cell holds the byte two rows and two columns from the pen |
| Render.DrawnUpTo | edit.c:84-101 | the walk draws at most one cell per byte passed |
| Render.WalkStep | edit.c:90-99 | one step of the walk in each of its three cases: a newline moves to the next row, a drawable byte adds its cell and advances the column, any other byte changes nothing |
| Render.Project | edit.c:79-103 | a frame has at most one cell per content byte; the cursor target is (0, 0) when the walk never reaches the cursor, and otherwise at least 2 - `top_row` in row and 2 in column |
| Render.PenRow | edit.c:79-92 | the walk's row at offset k is the number of newlines before k, less `top_row` |
| Render.PenColumn | edit.c:90-99 | the walk's column is between 0 and `COLS - 4`, and is 0 right after a newline |
| Render.CursorCell | edit.c:82-89 | the cursor target is the line of the cursor (counted from `top_row`) plus 2, with a column from 2 to `COLS - 2`, and column 2 right after a newline; it stays (0, 0) when the walk never reaches the cursor |
| Render.DrawnBounds | edit.c:93-99 | every drawn cell holds a content byte that is not a newline, in rows 2 to `top_row + LINES + 1` and columns 2 to `COLS - 3`; at most one cell is drawn per byte |
| Render.CellsInFrame | edit.c:84-101 | all cells of a frame satisfy those bounds |
| Render.WalkPrefix | edit.c:84-101 | the walk up to offset k depends only on the first k bytes |
| Render.ProjectSeesOnlyText | edit.c:93-94 | the walk stops at the first zero byte: two windows with the same content give the same frame, whatever follows the sentinel |
| Render.CursorOnSecondLine | edit.c:79-103 | "ab\ncd" puts the cursor at (2, 4) for offset 2 and at (3, 2) for offset 3 |
| Editor.Editor.Load | edit.c:170-178 | the buffer has `Capacity(len) + 1` bytes and holds the file followed by zeros; the cursor and `top_row` start at 0; a file without zero bytes gives a valid editor whose content is the file |
| Editor.Editor.GetRealFileSize | edit.c:135-140 | the result is the offset of the first zero usable byte, or `file_size` |
| Editor.Editor.ShiftRight | edit.c:109-111 | every usable byte after p takes its left neighbour's old value; the bytes up to p and the spare byte keep theirs |
| Editor.Editor.AddToBuffer | edit.c:108-114 | the new buffer and cursor are `Insert` of the old ones, and the editor stays valid |
| Editor.Editor.ShiftLeft | edit.c:118-121 | the bytes from p - 1 up to the old sentinel take their right neighbour's old value; every other byte keeps its own |
| Editor.Editor.RemoveFromBuffer | edit.c:116-123 | the new buffer and cursor are `Backspace` of the old ones, and the editor stays valid |
| Editor.Editor.AppendNewlineToBuffer | edit.c:125-133 | the new buffer is `WithNewline` of the old one, and the editor stays valid |
| Editor.Editor.SaveFile | edit.c:142-145 | the bytes handed to the file are `SaveBytes` of the old buffer, and the buffer is left normalised |
| Editor.Editor.MoveCursorRight | edit.c:215-216 | the new cursor is `MoveRight` of the old one |
| Editor.Editor.MoveCursorLeft | edit.c:217-220 | the new cursor is `MoveLeft` of the old one |
| Editor.Editor.HandleEvent | edit.c:204-223 | the new buffer and cursor are `Step` of the old ones for the event |
| Editor.Editor.Redraw | edit.c:79-103 | the frame drawn is `Project` of the usable bytes, the cursor and the screen |
| Editor.Editor.ProcessEvent | edit.c:204-225 | one turn of the main loop: `Step`, then the redraw of the new state |

## Left out

- Curses output (`clear`, `mvaddch`, `move`, `refresh` and terminal setup): a frame is a list of cells plus a cursor target.
- The menu bar and border grid of `redraw()` (edit.c:53-76): fixed drawing that does not depend on the buffer.
- Colours and `enable_colors` (edit.c:36-42, 189-199): they have no effect on content or positions.
- File I/O (`fopen`, `fseek`, `ftell`, `fread`, `fwrite`, `fclose`): the file is a byte sequence given to `Load`, and a save returns the bytes `fwrite` would receive. A failing write is not modelled.
- `sigint_handler` and `signal` (edit.c:147-156): asynchronous. The handler restores the terminal, saves, closes the file and exits with status 0. It is the only caller of `save_file`, so a run saves exactly once, on Ctrl-C, and then ends.
- Argument and open-failure checks in `main` (edit.c:158-168): process plumbing.
- `getch` and the `char` truncation of the curses `KEY_*` codes: input is an abstract `Event` (erase, enter, arrow code, other escape, typed byte).
- Int and long widths: offsets and sizes are unbounded integers. In C, `file_size` is a `long`, but the loop counters (edit.c:84, 109, 118, 126, 136), `current_position` and the result of `get_real_file_size` are `int`. They reach `file_size + 1`, which fits an `int` only while the file is shorter than 2^31 - 65537 bytes (about 2 GiB). The model is faithful below that bound and does not model the wrap-around above it.
- Up and down arrows, and scrolling: the code leaves them empty and never writes `top_row`, so `topRow` is fixed at load time and is an input of the projection.
- KeyDispatch.Insert: a typed zero byte is not modelled. `Typed` carries a `Keystroke`, which excludes 0 as well as 127 and ESC, since the main loop sends those two to erase and escape handling (edit.c:206, 208). Inserting a zero byte would plant an early sentinel.
- KeyDispatch.Insert: at a cursor past every usable byte the keystroke is refused. As written it overwrites the spare byte and then writes outside the block; see Findings.
- Editor.Editor.Load: the editor is proved valid only for files without zero bytes. A zero byte in the file leaves nonzero bytes after the first sentinel, which breaks the zero-filler invariant the proofs keep.
- Editor.Editor.Load: the block is allocated zeroed. `malloc` leaves it uninitialised; see Findings.
- Editor.Editor.ShiftRight: the loop stops at `i > p`, not `i > p - 1`. The C loop's extra step copies `buffer[p - 1]` into `buffer[p]`, which is overwritten straight after, and at p = 0 it reads `buffer[-1]`.
- Editor.Editor.MoveCursorRight: at a cursor on `file_size` (full buffer, cursor at the end) the C code reads `buffer[file_size + 1]`, outside the block; the model does not move.
- Editor.Editor.AppendNewlineToBuffer: with empty content the byte before the block is taken as not a newline, so a newline is written; see Findings.

## Findings

| source | as written | input that shows it | evidently intended | confidence | as-written member | corrected member |
|---|---|---|---|---|---|---|
| edit.c:177-178 | `fread` fills only the file's bytes; the rest of the `malloc` block, sentinel included, is whatever was there | a file "hi" read into a block whose byte 2 is nonzero | the bytes after the file are zero, so the content is the file | medium; not executed | TextBuffer.StaleByteAfterFile | TextBuffer.LoadedText |
| edit.c:108-114 | there is no capacity check; at `current_position == file_size` the key is written into the spare byte and the cursor moves past the block | a buffer with one free byte, the cursor at the end, two keystrokes | a keystroke in a full buffer at its end is refused | high; not executed | KeyDispatch.FullBufferOverrun | KeyDispatch.InsertEffect |
| edit.c:128 | with empty content, `buffer[i - 1]` is `buffer[-1]`, outside the block | an empty buffer whose preceding byte happens to be a newline: the save writes nothing | empty content gets a newline, as any content without one does | medium; not executed | TextBuffer.NewlineReadsBeforeBuffer | TextBuffer.WithNewlineText |
