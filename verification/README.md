# yay: gap buffer, line addressing, selection and the editing step

This project models the core of `yay`, a small terminal text editor written
in C (`yay.c`), and proves properties of the model. It covers three layers.

- **The gap buffer** (`gap_buffer.dfy`, module `GapBuffer`). The physical
  array, a first section, a gap and a second section. `buf_len`, `buf_get`,
  `buf_seek` with its two shifting loops, `buf_insert` with its grow-and-
  relocate loop, and `buf_delete`. The array is a sequence updated one cell
  at a time, at exactly the places the C code writes. The logical content
  (first section, then second) is the abstraction every contract speaks
  about.
- **Line/column addressing and the selection** (`lines.dfy`,
  `selection.dfy`, `buf_sel_delete.dfy`, `clipboard.dfy`). This covers:
  - `line_cmp`, `is_selected`, `line2offset`, `buf_linelen` and
    `buf_linecount`;
  - `buf_sel_length`, with `buf_sel_delete` both as a function on the
    content and as the in-place scan on the gap buffer;
  - `buf_copy` and `set_copy_buf`.

  The coordinate of each offset is `Lines.CoordAt`: the `(v_line, v_char)`
  pair the C scans keep up to date byte by byte. The selection is proved
  to be one contiguous run of offsets `[SelStart, SelEnd)`. Every other
  selection fact is stated against that run.
- **One iteration of the editing loop** (`editor.dfy`, module `Editor`).
  This is `view_buf` from the offset and line-length computation to the
  auto-scroll (yay.c:456-565): `Editor.Step` maps a state, a key and the
  environment to the next state, to `Quit`, to `Undefined` when the C
  code calls the buffer outside its contract, or to `Hang` when the
  auto-scroll loops can never end (a view height of 0). The step follows
  the code as written, including its two stale-offset effects, with one
  exception: Ctrl-X and Ctrl-C copy through `buf_copy` as its comment
  describes it, not through the overrunning loop (see Left out and
  Findings). `editor_properties.dfy` states what each key does.
  `editor_fixes.dfy` exhibits the defects and gives corrected commands
  with their properties.

Allocation outcomes (`realloc`, `malloc`) are inputs: `Env.insertOk`,
`Env.copyOk` and the `allocOk` parameters. The editor state holds the
content, not the physical array, so `Env.insertOk = false` makes an
insertion fail whatever the gap. In the source `buf_insert` only
allocates, and so can only fail, when the array is full (yay.c:132-134);
`GapBuffer.Insert` models that condition exactly. The height of the last
render, `v_height`, is the input `Env.vHeight`.

Facts about `yay.c` that the model follows and that a reader might not
expect:

- The comment of `buf_delete` (yay.c:151) says it deletes the character
  at the given offset, but the code seeks to `k` and shrinks the first
  section, so `buf_delete(k)` removes the byte at `k - 1`. That is why
  `buf_sel_delete` calls it with `offset + 1`, and why backspace passes
  the cursor offset itself. `GapBuffer.Delete` follows the code.
- The delete key (`KEY_DC`) runs the same code as backspace (yay.c:476)
  and removes the byte before the cursor (`EditorProperties.DeleteKeysAgree`).
- A failed insertion still deletes the selection, because
  `buf_sel_delete` runs before `buf_insert` is tried (yay.c:460-461;
  `EditorProperties.FailedInsertOnlyDeletesSelection`).
- Backspace over a selection deletes the selection and then one more byte
  (yay.c:477-490; see Findings).

The scan of `buf_sel_delete` decrements an unsigned `offset` after a
deletion, which may wrap from 0, and relies on the loop's increment to
undo it (yay.c:260-268). `BufSelDelete.DeleteSelected` restructures the
loop so that the offset advances only when nothing was deleted. The bytes
visited, and the order in which they are visited, are the same.

## Model

| member | source | states |
|---|---|---|
| GapBuffer.Buf.Len | yay.c:96-99 | the length is the number of bytes in the logical content |
| GapBuffer.Buf.Get | yay.c:101-107 | reading through the physical index mapping yields the byte at that logical offset |
| GapBuffer.Seek | yay.c:109-126 | afterwards the first section is `offset` long; content, capacity and total length are unchanged |
| GapBuffer.Grow | yay.c:131-141 | the capacity grows by BUFSIZE (4096), both sections keep their lengths, and relocating the second section to the new end keeps the content |
| GapBuffer.Insert | yay.c:128-148 | the call fails only when the array is full and the allocation fails, and then the buffer is unchanged; otherwise the content is the old one with `c` at `offset`, and the capacity grows by BUFSIZE exactly when the array was full |
| GapBuffer.Delete | yay.c:150-154 | `buf_delete(k)` removes exactly the byte at `k - 1`; the rest of the content keeps its order |
| Lines.LineCmp | yay.c:74-86 | the result is 1, 0 or -1, and is 0, negative or positive exactly when the positions are equal, the first is lexicographically smaller, or it is larger |
| Lines.LineCmpUnsignedChar | yay.c:74-86 | line_cmp's result stored in an unsigned `char`: 0 exactly for equal positions, 255 exactly when the first is earlier, 1 exactly when it is later |
| Lines.LineCmpAntisymmetric | yay.c:74-86 | swapping the two positions negates the comparison |
| Lines.BeforeIsStrictTotalOrder | yay.c:74-86 | the order the comparison implements is irreflexive, asymmetric, transitive and total |
| Lines.CoordAt | yay.c:258-276 | the `(v_line, v_char)` pair the scans carry to offset `i`: column 0 exactly at the start or after a newline, and never more columns than offsets; `Lines.CoordLineCountsNewlines` and `Lines.CoordOrder` state the rest |
| Lines.Advance | yay.c:270-275 | after a newline the coordinate moves to column 0 of the next line, otherwise one column right, and always strictly later |
| Lines.CoordLineCountsNewlines | yay.c:258-276 | the line of a scanned coordinate is the number of newlines before it |
| Lines.CoordOrder | yay.c:258-276 | scanned coordinates are injective and order offsets the same way the comparison orders positions |
| Lines.CountFrom | yay.c:189-200 | the counting loop adds the number of newlines in the rest of the content |
| Lines.LineCount | yay.c:189-200 | the line count is the line of the coordinate at the end of the content |
| Lines.LineCountIsNewlines | yay.c:189-200 | the line count is the number of newline bytes |
| Lines.LineStartScan | yay.c:158-164 | the first loop stops at the start of the requested line, or at the end when the content has fewer lines |
| Lines.ColumnScan | yay.c:166-171 | the second loop moves at most `column` bytes and stops before a newline or at the end |
| Lines.Line2Offset | yay.c:156-174 | the offset lies on the requested line at a column no greater than asked, short only at a newline or the end; a line past the last gives the end |
| Lines.RunLength | yay.c:179-184 | the line-length loop counts bytes up to the next newline or the end, and none of them is a newline |
| Lines.LineLen | yay.c:176-187 | computes the run length from the line's start; `Lines.LineEnd` and `Lines.Line2OffsetClamps` state that it is the number of bytes of the line before its newline or the end |
| Lines.LineEnd | yay.c:176-187 | the offset at a line's length is that line's newline, or the end for the last line, at coordinate (line, length) |
| Lines.Line2OffsetClamps | yay.c:156-174 | for a line that exists, the offset of (line, column) has coordinate (line, min(column, line length)) |
| Lines.Line2OffsetOfCoord | yay.c:156-174 | `line2offset` inverts the scan: each offset is found again from its own coordinate |
| Lines.OriginIsOffsetZero | yay.c:156-174 | (0, 0) is offset 0 |
| Selection.IsSelected | yay.c:88-94 | a position is selected exactly when the selection is on and it lies between the smaller and the larger endpoint, both included |
| Selection.IsSelectedUnsignedChar | yay.c:88-94 | is_selected with an unsigned `char` result selects exactly the cursor and the anchor while the selection is on |
| Selection.UnsignedCharDropsInterior | yay.c:88-94 | the two readings differ: with cursor (0, 2) and anchor (0, 0), (0, 1) is selected only with a signed `char` |
| Selection.IsSelectedProperties | yay.c:88-94 | nothing is selected while the selection is off; exchanging cursor and anchor selects the same positions; both endpoints are selected |
| Selection.SelectionContiguous | yay.c:88-94 | between two selected bytes every byte is selected |
| Selection.SelectionIsRun | yay.c:258-276 | the selected offsets are exactly the run `[SelStart, SelEnd)` |
| Selection.SelLength | yay.c:286-303 | runs the counting scan from offset 0; `Selection.SelLengthScan` and `Selection.SelLengthIsRun` state that it counts the selected offsets, which form the run `[SelStart, SelEnd)` |
| Selection.SelLengthScan | yay.c:286-303 | the counting scan returns the number of selected offsets |
| Selection.SelLengthIsRun | yay.c:286-303 | the selection length is the length of the selected run, and 0 while the selection is off |
| Selection.KeptIsSplice | yay.c:258-276 | keeping the unselected bytes of a prefix cuts the selected run out of it |
| Selection.KeptAll | yay.c:258-276 | the unselected bytes of the whole content are the content with the selected run cut out |
| Selection.SelDelete | yay.c:251-284 | no change while the selection is off; otherwise the run is cut out, the length drops by the selection length, the cursor goes to the smaller endpoint and the selection is turned off |
| BufSelDelete.ScanByte | yay.c:264-275 | one pass of the scan deletes the byte under the offset when its pre-deletion coordinate is selected, steps over it otherwise, and advances the coordinate |
| BufSelDelete.DeleteSelected | yay.c:258-276 | the in-place scan on the gap buffer leaves exactly the unselected bytes, in order |
| BufSelDelete.SelDeleteBuf | yay.c:251-284 | the gap-buffer version of `buf_sel_delete` agrees with `Selection.SelDelete` on content and pointer |
| Clipboard.BufCopy | yay.c:305-325 | out of range exactly when `offset + len` exceeds the length; a failed allocation exactly when in range and the allocation fails; an in-range copy with a successful allocation succeeds and holds the `len` bytes at `offset` |
| Clipboard.BufCopyAsWritten | yay.c:320-322 | apart from the overrun the loop agrees with the intended copy, and from offset 0 it always does |
| Clipboard.BufCopyAsWrittenOverruns | yay.c:314-322 | every non-empty in-range copy from a non-zero offset writes past its `len`-byte allocation |
| Clipboard.SetCopyBuf | yay.c:327-343 | a failed copy leaves no clipboard; a successful one holds as many bytes as the selection length |
| Clipboard.SetCopyBufKeeping | yay.c:327-343 | the corrected version keeps the previous clipboard on failure and agrees with the source on success |
| Clipboard.SetCopyBufLosesClipboard | yay.c:330-341 | with a clipboard held and the allocation failing, the source ends with none and the corrected version keeps it |
| Clipboard.SelOffset | yay.c:334-339 | the offset of whichever endpoint `line_cmp` finds smaller; `Clipboard.SelOffsetIsSelStart` states that it is the first selected offset |
| Clipboard.SelOffsetIsSelStart | yay.c:334-339 | the offset computed from the smaller endpoint is the first selected offset, when that endpoint is a real coordinate |
| Clipboard.CopyIsSelectedRun | yay.c:327-343 | when the smaller endpoint is a real coordinate, a successful copy puts exactly the selected run on the clipboard |
| Clipboard.CutThenPasteRestores | yay.c:549-551 | when the smaller endpoint is a real coordinate, cutting and putting the clipboard back where the run began restores the content |
| Clipboard.CopyWithoutSelection | yay.c:327-343 | with the selection off, a successful copy holds the empty sequence |
| Editor.InsertKey | yay.c:459-475 | the typing command as written; `EditorProperties.TypingInsertsAtCursor`, `EditorProperties.FailedInsertOnlyDeletesSelection` and `EditorFixes.TypingOverSelectionUsesStaleOffset` state its behaviour |
| Editor.Backspace | yay.c:476-491 | the delete and backspace command as written; `EditorProperties.BackspaceRemovesPrevious`, `EditorFixes.BackspaceAtOriginUndefined` and `EditorFixes.BackspaceOverSelectionDeletesTwice` state its behaviour |
| Editor.Command | yay.c:459-556 | the dispatch of one key before the auto-scroll; the per-key lemmas of `EditorProperties` state what each key does |
| Editor.MoveToLine | yay.c:500-505 | the cursor moves to the line, keeps the sticky column, and the column is the sticky column clamped to the line's length |
| Editor.ScrollDown | yay.c:560-562 | the first scroll loop moves the top line down by whole views until the cursor line is above the bottom of the view |
| Editor.ScrollUp | yay.c:563-565 | the second loop moves the top line up by whole views, clamping at 0, until the cursor line is visible |
| Editor.Scroll | yay.c:558-565 | afterwards the cursor line is inside the view; the top line moved by whole views in one direction, or to 0; it stays put when the cursor was already visible |
| Editor.ScrollDownPasses | yay.c:560-562 | the first loop as written, pass by pass, for any height |
| Editor.ScrollUpPasses | yay.c:563-565 | the second loop as written, pass by pass, for any height |
| Editor.ScrollDownPassesEnd | yay.c:560-562 | with a positive height the first loop has stopped after enough passes, where `Editor.ScrollDown` stops |
| Editor.ScrollUpPassesEnd | yay.c:563-565 | with a positive height the second loop has stopped after enough passes, where `Editor.ScrollUp` stops |
| Editor.Settle | yay.c:558-565 | after a command that continues: `Hang` exactly at height 0; otherwise only the top line changes, and the cursor line is inside the view |
| Editor.Step | yay.c:456-565 | every iteration that continues had a height of at least 1 and ends with the cursor line inside the view |
| Editor.StepWithoutScroll | yay.c:558-565 | when the command leaves the cursor line visible, the view does not move |
| Editor.StepOfNext | yay.c:558-565 | when the command continues, the step continues with the same state except for the top line |
| Editor.TypedByteInserts | yay.c:459-475 | printable bytes, tab and newline all take the insertion path with the byte itself |
| EditorProperties.KeyLeftMoves | yay.c:492-495 | left moves one column back and commits it as the sticky column, except at column 0 |
| EditorProperties.KeyRightMoves | yay.c:496-499 | right moves one column on and commits it, except at the end of the line |
| EditorProperties.KeyUpMoves | yay.c:500-505 | up goes to the previous line at the sticky column clamped to that line, keeps the sticky column, and does nothing on line 0 |
| EditorProperties.KeyDownMoves | yay.c:506-511 | down goes to the next line at the clamped sticky column, and does nothing on the last line |
| EditorProperties.KeyNPageMoves | yay.c:512-522 | page down moves one view height further, clamped to the last line, at the clamped sticky column |
| EditorProperties.KeyPPageMoves | yay.c:523-528 | page up moves one view height back, clamped to line 0, at the clamped sticky column |
| EditorProperties.HomeEndMove | yay.c:529-536 | home goes to column 0 and end to the line's length, each committed as the sticky column |
| EditorProperties.DownThenUpRestores | yay.c:500-511 | from any line but the last, down then up returns to the same pointer when the column is where the sticky column clamps to |
| EditorProperties.TypingInsertsAtCursor | yay.c:456-475 | for a valid cursor without a selection and when the insertion succeeds, a typed byte goes in at the cursor's offset, and the new cursor is the coordinate just after it and names that offset |
| EditorProperties.FailedInsertOnlyDeletesSelection | yay.c:459-475 | a failed insertion still deletes the selection and inserts nothing |
| EditorProperties.DeleteKeysAgree | yay.c:476-491 | the delete key and backspace have the same effect |
| EditorProperties.BackspaceRemovesPrevious | yay.c:476-491 | for a valid cursor other than (0, 0) without a selection, backspace removes the byte before the cursor; the cursor lands on that byte's old coordinate and names its offset |
| EditorProperties.BackspaceLands | yay.c:478-486 | one column back, or the end of the previous line, is the coordinate of the byte before the cursor |
| EditorProperties.PreviousCoord | yay.c:481-485 | the coordinate before an offset at column 0 is the end of the previous line |
| EditorProperties.ToggleAnchorsAtCursor | yay.c:544-548 | Ctrl-T toggles the selection and drops the anchor at the cursor, so a fresh selection is the cursor's byte alone |
| EditorProperties.CutStep | yay.c:549-551 | Ctrl-X deletes the selection only when the copy succeeds; otherwise only the clipboard changes |
| EditorProperties.CopyStep | yay.c:552-554 | Ctrl-C changes only the clipboard |
| EditorProperties.CutMovesRunToClipboard | yay.c:549-551 | a successful cut moves the selected run to the clipboard and leaves a valid cursor where the run began |
| EditorProperties.CopyTakesRun | yay.c:552-554 | a successful copy puts the selected run on the clipboard and changes neither content nor pointer |
| EditorProperties.QuitAndIgnoredCodes | yay.c:537-556 | Ctrl-Q quits; Ctrl-S, Ctrl-P and unbound codes change nothing but the view |
| EditorProperties.ClipboardKeysWithoutSelection | yay.c:549-554 | with the selection off, cut and copy leave content and pointer alone |
| EditorProperties.HorizontalKeepsCursorValid | yay.c:492-499 | left, right, home and end keep a valid cursor valid |
| EditorProperties.UpKeepsCursorValid | yay.c:500-505 | up keeps a valid cursor valid |
| EditorProperties.DownKeepsCursorValid | yay.c:506-511 | down keeps a valid cursor valid |
| EditorProperties.PageKeysKeepCursorValid | yay.c:512-528 | page down and page up keep a valid cursor valid |
| EditorProperties.StepKeepsCursorValid | yay.c:456-565 | with the selection off, every key keeps a valid cursor valid; the loop ends exactly on Ctrl-Q; the buffer is called out of contract exactly by backspace or delete at (0, 0) |
| EditorFixes.BackspaceAtOriginUndefined | yay.c:476-491 | at (0, 0) without a selection, backspace and delete call `buf_delete(0)` |
| EditorFixes.TypingOverSelectionLeavesInvalidCursor | yay.c:456-466 | with "ab" of "ab\ncd" selected from (0, 0) to (0, 1), typing "X" gives "\nXcd" with the cursor at (0, 1), which is not a valid coordinate |
| EditorFixes.TypingOverSelectionUsesStaleOffset | yay.c:456-466 | when both endpoints are real coordinates and the insertion succeeds, typing over a selection that ends at the cursor inserts at the cursor's pre-deletion offset, or seeks past the end, instead of where the run began |
| EditorFixes.BackspaceOverSelectionDeletesTwice | yay.c:476-491 | backspace over such a selection removes the run and one more byte, or deletes past the end |
| EditorFixes.InsertKeyFixed | yay.c:459-475 | the corrected typing always continues, and agrees with the source when no selection is active |
| EditorFixes.BackspaceFixed | yay.c:476-491 | the corrected backspace deletes only the selection when there is one, does nothing at offset 0, and otherwise agrees with the source |
| EditorFixes.LoAddressesCut | yay.c:278-283 | when the smaller endpoint is a real coordinate, after the cut it is the coordinate of the offset where the run began, and names it |
| EditorFixes.InsertKeyFixedReplacesSelection | yay.c:459-466 | when the smaller endpoint is a real coordinate, the corrected typing replaces the selected run by the typed byte |
| EditorFixes.BackspaceFixedRemovesSelection | yay.c:476-477 | the corrected backspace removes exactly the selected run |
| EditorFixes.ZeroHeightScrollNeverEnds | yay.c:558-565 | with a height of 0, after any number of passes the loop that runs has not moved the top line and its guard still holds |
| EditorFixes.ZeroHeightStepHangs | yay.c:558-565 | with a height of 0, every command that continues makes the step `Hang` |
| EditorFixes.ScrollFixed | yay.c:558-565 | the scroll with its shift clamped to at least 1 ends for every height with the cursor line inside the view, moving by whole views |
| EditorFixes.ScrollFixedIsLoop | yay.c:558-565 | the two loops as written, run with the clamped shift, stop at the corrected result |

## Left out

- `buf_load` and `buf_write` (yay.c:202-249) are file I/O. The model starts from a content sequence, and Ctrl-S is a step that changes nothing in the model.
- `render_buf`, the ncurses calls, `main` and the status-line strings are display and process setup. The height the last render reports is the input `Env.vHeight`.
- Paste (Ctrl-P) has an empty body in the source, so it is modelled as a key that changes nothing.
- `size_t` arithmetic is unbounded here. The wrap-arounds that matter (`buf_delete(0)`, or a seek past the end from a stale offset) are reported as the `Undefined` outcome rather than computed.
- The bytes `realloc` adds are unspecified. They are modelled as NUL characters, and they end up in the gap, outside the content.
- Keys are an abstract datatype. Plain codes are `Byte(code)`, and each ncurses special key is its own constructor, which matches how the source compares them.
- Lines.LineCmp: assumes plain `char` is signed, as on x86, so line_cmp's -1 is read as -1. Where plain `char` is unsigned (ARM and AArch64 Linux, PowerPC, s390) it is stored as 255 (`Lines.LineCmpUnsignedChar`). Then is_selected selects only the cursor and the anchor (`Selection.IsSelectedUnsignedChar`). buf_sel_delete's `> 0` test (yay.c:279) always moves the cursor to the anchor. set_copy_buf's `<= 0` test (yay.c:335) takes the cursor's offset only when cursor and anchor coincide. The rest of the model does not cover that reading.
- Editor.Scroll: requires `height >= 1`. At a height of 0 the loops never end; `Editor.Step` returns `Hang` there instead of calling it (see Findings).
- Editor.Step and Clipboard.SetCopyBuf: use `Clipboard.BufCopy`, the `buf_copy` its comment describes, not `Clipboard.BufCopyAsWritten`. As written, copying a non-empty selection that starts at an offset above 0 writes past its allocation (see Findings), yet the step returns a normal state there rather than `Undefined`.
- GapBuffer.Seek: requires `offset <= length`. The source does not check this; a larger offset underflows `second_len`. Callers in the step model this case as `Undefined`.
- GapBuffer.Delete: requires `1 <= k <= length`. The source does not check this; `k = 0` underflows `first_len`. The step models this case as `Undefined`.
- GapBuffer.Insert: requires `offset <= length`, for the same reason as `Seek`.
- EditorProperties.StepKeepsCursorValid: only with the selection off. With a selection, typing and backspace use the stale offset described under Findings, so no validity claim is made for them.
- EditorProperties.CutMovesRunToClipboard and EditorProperties.CopyTakesRun: require the smaller selection endpoint to be a real coordinate. When it is not, `line2offset` clamps it to an earlier offset, and the copied range starts before the selected run.
- Clipboard.CopyIsSelectedRun: requires the smaller selection endpoint to be a real coordinate, for the same reason.
- Clipboard.CutThenPasteRestores: requires the smaller selection endpoint to be a real coordinate, for the same reason.
- EditorFixes.LoAddressesCut: requires the smaller selection endpoint to be a real coordinate, for the same reason.
- EditorFixes.InsertKeyFixedReplacesSelection: requires the smaller selection endpoint to be a real coordinate, for the same reason.
- EditorProperties.TypingInsertsAtCursor: requires a valid cursor. The source can reach an invalid one: typing over a selection can leave the cursor past the end of its line (`EditorFixes.TypingOverSelectionLeavesInvalidCursor`).
- EditorProperties.BackspaceRemovesPrevious: requires a valid cursor, for the same reason.

## Findings

| source | as written | input that shows it | evidently intended | confidence | as-written member | corrected member |
|---|---|---|---|---|---|---|
| yay.c:320-322 | `clip_buf[i]` is indexed by the buffer offset `i`, which runs from `offset` to `offset + len - 1`, into a `len`-byte allocation | copying 1 byte at offset 1 of "ab" writes `clip_buf[1]` of a 1-byte allocation | store byte `i` at `clip_buf[i - offset]` | high, not executed | Clipboard.BufCopyAsWrittenOverruns | Clipboard.BufCopy |
| yay.c:456-461 | typing takes the cursor offset before `buf_sel_delete` and inserts at it afterwards; the cursor can also end past the end of its line | "abc", anchor (0, 0), cursor (0, 1), selection on, type "X": gives "cX"; "ab\ncd" the same way gives "\nXcd" with the cursor at (0, 1) on an empty line (`EditorFixes.TypingOverSelectionLeavesInvalidCursor`) | insert where the selection began: "Xc" | high, not executed | EditorFixes.TypingOverSelectionUsesStaleOffset | EditorFixes.InsertKeyFixedReplacesSelection |
| yay.c:476-490 | backspace deletes the selection and then still calls `buf_delete` at the old cursor offset | "abcd", anchor (0, 1), cursor (0, 2), selection on, backspace: gives "a" | delete only the selection: "ad" | high, not executed | EditorFixes.BackspaceOverSelectionDeletesTwice | EditorFixes.BackspaceFixedRemovesSelection |
| yay.c:476-490 | at (0, 0) without a selection, backspace calls `buf_delete(buf, 0)`, which decrements a zero `first_len` | any content, cursor (0, 0), selection off, backspace | do nothing at the start of the content | high, not executed | EditorFixes.BackspaceAtOriginUndefined | EditorFixes.BackspaceFixed |
| yay.c:330-341 | `set_copy_buf` frees the old clipboard before the copy can fail | clipboard holds "x", the selection copy's allocation fails: the clipboard is gone | keep the old clipboard when the copy fails | medium, not executed | Clipboard.SetCopyBufLosesClipboard | Clipboard.SetCopyBufKeeping |
| yay.c:558-565 | the scroll shift is `v_height`, which `render_buf` returns as 0 when one line from `v_line` fills every row through soft wraps (yay.c:367-404, 424); then `v_line += 0` and `v_line -= 0` never change the top line, and the loop never ends | top line 0 holding at least (rows - 1) * columns printable bytes and no newline, any cursor, any key that continues | shift by at least one line | medium, not executed | EditorFixes.ZeroHeightScrollNeverEnds | EditorFixes.ScrollFixed |
