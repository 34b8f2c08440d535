# A verified model of the hermes compose editor and mail records

hermes is a terminal mail client. This project models two parts of it in
Dafny and proves properties of them.

The first part is the modal compose editor of `App`. It edits a
recipient, a subject and a multi-line body in vim-style Normal, Insert and
Visual modes. A byte cursor must stay consistent with a (line, column)
position over UTF-8 text. The model also covers the inbox and overlay
state machine around the editor: selection, viewer scrolling, the command
line and delete confirmation.

The second part is the file backend's record format. `send_email` writes
records, and two parsers read them back. The legacy parser reads one file
of `---`-separated records. The single-file parser reads one record per
file.

The project has five modules:

- `Str` gives Rust's `str` semantics over `seq<char>`:
  - UTF-8 byte lengths and `is_char_boundary`;
  - `insert`, `remove` and `drain`, with their panics as preconditions;
  - `char::is_whitespace`, with the full Unicode White_Space set;
  - `trim`, `str::lines`, `split('\n')` and `join`.
- `Cursor` holds the cursor projections:
  - byte cursor to (line, col) and back;
  - clamping a cursor down to a char boundary;
  - the word motions, over char indices and over byte cursors.
- `Compose` holds the editor state as a value (`ComposeState`) and one
  function per `compose_*` operation. It also holds the lemmas about them:
  round trips, preserved invariants and worked examples.
- `App` is the class `App`. Its fields are the source's fields, and it has
  one method per operation. Each compose method updates the fields in place
  and is proved to end in exactly the state the matching `Compose` function
  gives, so everything proved in `Compose` holds of the object.
- `Backend` holds the parsers and the writer:
  - both parsers, each as a step function folded over the lines and as a
    method with the source's loop, proved equal to the fold;
  - the record writer;
  - round-trip lemmas showing that the parsers read back what
    `send_email` writes.

Word motion counts whitespace runs, not single spaces. Forward motion
skips the rest of the word it starts in and then every whitespace char
after it. Pressed twice from offset 0 in `"hello world  foo"`, it stops at
6 and then at 13, the `f` of `foo`, past both spaces before it. Backward
motion from 13 goes to 6 and then to 0. `Cursor.WordIndexExample` and
`Compose.WordMotionExample` prove these four stops.

## Model

| member | source | states |
|---|---|---|
| App.App.constructor | src/app.rs:50-71 | The inbox is the given list, selection 0, Normal mode, empty command line, offset and height 0, the editor in its start state, no refresh pending and no email marked for deletion. |
| App.App.OnUp | src/app.rs:73-77 | The selection moves up one and stops at 0; a selection inside the list stays inside it. |
| App.App.OnDown | src/app.rs:79-83 | The selection moves down one only while a next entry exists; it never decreases and stays inside the list. |
| App.App.Quit | src/app.rs:85-87 | The quit flag is set. |
| App.App.OpenSelected | src/app.rs:89-94 | With a selected entry, Viewing mode at offset 0; with none, mode and offset unchanged. |
| App.App.CloseOverlay | src/app.rs:96-101 | Back to Normal mode: command line emptied, offset 0, no email marked for deletion. |
| App.App.ViewScrollUp | src/app.rs:103-107 | The view offset goes down one and stops at 0. |
| App.App.ViewScrollDown | src/app.rs:109-119 | The offset grows by one only while below the saturating difference of total lines and visible height, and never passes it; nothing moves when the text fits or either size is 0. |
| App.App.StartCommand | src/app.rs:121-124 | Command mode with an empty command line. |
| App.App.PushCommandChar | src/app.rs:126-128 | The char is appended to the command line. |
| App.App.PopCommandChar | src/app.rs:130-132 | The last char of the command line goes; an empty line stays empty. |
| App.App.SubmitCommand | src/app.rs:134-146 | Help mode exactly when the trimmed command line is `help`, Normal mode otherwise; the command line is emptied. |
| App.App.ShowDeleteConfirm | src/app.rs:148-153 | With a selected entry, that entry is marked for deletion in DeleteConfirm mode; with none, nothing changes. |
| App.App.ConfirmDelete | src/app.rs:155-164 | The selected entry and no other leaves the list and a refresh is requested; the selection is kept, or steps back one when it was the last entry, so it stays inside the shorter list or is 0 when the list is empty; Normal mode in every case. |
| App.App.StartCompose | src/app.rs:166-177 | Compose mode with all three fields empty, the To field active, Normal mode, cursor, line and col 0, no selection anchor. |
| App.App.SetText | src/app.rs:230-236 | Only the active field's text is replaced. |
| App.App.ComposeNextField | src/app.rs:179-189 | The editor ends in the state `Compose.NextField` gives. |
| App.App.ComposePrevField | src/app.rs:191-201 | The editor ends in the state `Compose.PrevField` gives. |
| App.App.ComposeEnterInsert | src/app.rs:203-206 | The editor ends in the state `Compose.EnterInsert` gives. |
| App.App.ComposeEnterVisual | src/app.rs:208-211 | The editor ends in the state `Compose.EnterVisual` gives. |
| App.App.ComposeExitInsert | src/app.rs:213-215 | The editor ends in the state `Compose.ExitInsert` gives. |
| App.App.ComposeExitVisual | src/app.rs:217-220 | The editor ends in the state `Compose.ExitVisual` gives. |
| App.App.ClampCursor | src/app.rs:238-254 | The loop that steps the cursor back to a char boundary ends in the state `Compose.ClampCursor` gives. |
| App.App.UpdateLineColFromCursor | src/app.rs:256-271 | The loop over the body's lines ends with (line, col) equal to the projection `Compose.UpdateLineColFromCursor` gives. |
| App.App.UpdateCursorFromLineCol | src/app.rs:273-302 | The clamping and the loop summing line lengths end in the state `Compose.UpdateCursorFromLineCol` gives. |
| App.App.ComposeMoveUp | src/app.rs:304-314 | The editor ends in the state `Compose.MoveUp` gives. |
| App.App.ComposeMoveDown | src/app.rs:316-324 | The editor ends in the state `Compose.MoveDown` gives. |
| App.App.ComposeMoveLeft | src/app.rs:326-342 | The editor ends in the state `Compose.MoveLeft` gives. |
| App.App.ComposeMoveRight | src/app.rs:344-365 | The editor ends in the state `Compose.MoveRight` gives. |
| App.App.ComposeMoveWordForward | src/app.rs:367-383 | The editor ends in the state `Compose.MoveWordForward` gives. |
| App.App.WordForwardFrom | src/app.rs:370-376 | The two skipping loops end at the char index `Cursor.WordForwardIndex` gives. |
| App.App.ComposeMoveWordBackward | src/app.rs:385-407 | The editor ends in the state `Compose.MoveWordBackward` gives. |
| App.App.WordBackwardFrom | src/app.rs:391-400 | The step back and the two skipping loops end at the char index `Cursor.WordBackwardIndex` gives. |
| App.App.ComposeMoveLineStart | src/app.rs:409-416 | The editor ends in the state `Compose.MoveLineStart` gives. |
| App.App.ComposeMoveLineEnd | src/app.rs:418-429 | The editor ends in the state `Compose.MoveLineEnd` gives. |
| App.App.ComposeDeleteChar | src/app.rs:431-437 | The editor ends in the state `Compose.DeleteChar` gives. |
| App.App.ComposeDeleteLine | src/app.rs:439-443 | The editor ends in the state `Compose.DeleteLine` gives. |
| App.App.ComposeIndentRight | src/app.rs:445-451 | The editor ends in the state `Compose.IndentRight` gives. |
| App.App.ComposeIndentLeft | src/app.rs:453-461 | The editor ends in the state `Compose.IndentLeft` gives. |
| App.App.ComposeAppend | src/app.rs:463-466 | The editor ends in the state `Compose.Append` gives. |
| App.App.ComposeAppendEnd | src/app.rs:468-471 | The editor ends in the state `Compose.AppendEnd` gives. |
| App.App.ComposeInsertStart | src/app.rs:473-476 | The editor ends in the state `Compose.InsertStart` gives. |
| App.App.ComposeOpenBelow | src/app.rs:478-487 | The editor ends in the state `Compose.OpenBelow` gives. |
| App.App.ComposeOpenAbove | src/app.rs:489-497 | The editor ends in the state `Compose.OpenAbove` gives. |
| App.App.ComposeInsertNewline | src/app.rs:499-503 | The editor ends in the state `Compose.InsertNewline` gives. |
| App.App.ComposeDeleteVisual | src/app.rs:505-518 | The editor ends in the state `Compose.DeleteVisual` gives. |
| App.App.ComposePushChar | src/app.rs:520-535 | The editor ends in the state `Compose.PushChar` gives. |
| App.App.ComposePopChar | src/app.rs:537-556 | The editor ends in the state `Compose.PopChar` gives. |
| App.App.PopLineColFrom | src/app.rs:545-554 | After backspace removed a char from the body: a newline moves to the end of the line above unless on line 0, any other char takes one from col unless it is 0. |
| App.App.GetComposeData | src/app.rs:558-560 | The recipient, subject and body, in that order. |
| Compose.ComposeState.Text | src/app.rs:222-228 | The text of the active field: the recipient, the subject or the body. |
| Compose.ComposeState.WithText | src/app.rs:230-236 | Only the active field's text is replaced; the other two fields and the rest of the state are kept, and writing back the same text changes nothing. |
| Compose.Start | src/app.rs:166-177 | All three fields empty, the To field active, Normal mode, cursor, line and col 0, no selection anchor; the start state is valid. |
| Compose.FieldCycle | src/app.rs:179-201 | Three forward field switches come back to the start, a forward switch is undone by a backward one and the other way round, and a switch always changes the field. |
| Compose.ClampCursor | src/app.rs:238-254 | The cursor ends on a char boundary of the active text, never above where it was, at the greatest boundary not above it; a cursor already on a boundary stays; in the body (line, col) is the projection of the new cursor; nothing else changes. |
| Compose.UpdateLineColFromCursor | src/app.rs:256-271 | (line, col) becomes the projection of the cursor onto the body's lines; nothing else changes. |
| Compose.UpdateCursorFromLineCol | src/app.rs:273-302 | Outside the body nothing changes; a body with no lines puts the cursor at 0; otherwise a line past the last goes to the last line, a col past its line's end goes to that end, in-range values are kept, and the cursor is put at that byte offset, whose projection is the clamped (line, col). |
| Compose.NextField | src/app.rs:179-189 | Outside Insert mode the next field is active with the cursor clamped from 0, and (line, col) is (0, 0) when the body is entered; in Insert mode nothing changes; validity is kept. |
| Compose.PrevField | src/app.rs:191-201 | As `NextField`, towards the previous field. |
| Compose.EnterInsert | src/app.rs:203-206 | Insert mode with the selection anchor cleared; nothing else changes. |
| Compose.EnterVisual | src/app.rs:208-211 | Visual mode with the anchor at the cursor; nothing else changes. |
| Compose.ExitInsert | src/app.rs:213-215 | Normal mode; the anchor and everything else are kept. |
| Compose.ExitVisual | src/app.rs:217-220 | Normal mode with the anchor cleared; nothing else changes. |
| Compose.FieldSwitchRoundTrips | src/app.rs:179-201 | Three forward switches restore the field; a forward switch is undone by a backward one and the other way round. |
| Compose.ModeRoundTrips | src/app.rs:203-220 | Entering and leaving Visual mode restores the state less its anchor; entering and leaving Insert mode keeps the cursor and clears the anchor. |
| Compose.MoveUp | src/app.rs:304-314 | In the body, one line up and re-projected, or on line 0 the previous field; outside the body nothing; validity is kept. |
| Compose.MoveDown | src/app.rs:316-324 | Moves one line down when a next line exists, re-projected; otherwise nothing; validity is kept. |
| Compose.MoveLeft | src/app.rs:326-342 | Outside the body the cursor goes back one byte and is clamped to a boundary; in the body col goes down one, or at col 0 to the end of the line above; text and mode never change; validity is kept. |
| Compose.MoveRight | src/app.rs:344-365 | Outside the body the cursor goes forward one byte and is clamped to a boundary; in the body col goes up one inside the line, or at its end to the start of the next line; text and mode never change; validity is kept. |
| Compose.FieldHorizontal | src/app.rs:326-365 | In the To and Subject fields, left and right move exactly one char: back to the previous boundary, and forward past a one-byte char or not at all past a wider one. |
| Compose.BodyRightSplitsChar | src/app.rs:344-356 | In the body, right moves col by one byte even inside a two-byte char, so the cursor leaves the char boundaries. |
| Compose.MoveWordForward | src/app.rs:367-383 | The cursor moves to the byte offset of the next word start, or the end of the text, and stays on a boundary and within the text. |
| Compose.MoveWordBackward | src/app.rs:385-407 | At 0 nothing; otherwise the cursor moves to the byte offset of the previous word start and never moves forward; validity is kept. |
| Compose.WordMotionExample | src/app.rs:367-407 | On `"hello world  foo"` word-forward from 0 lands on 6 then on 13, and word-backward from 13 lands on 6 then on 0. |
| Compose.MoveLineStart | src/app.rs:409-416 | Outside the body the cursor goes to 0; in the body col 0 is re-projected; validity is kept. |
| Compose.MoveLineEnd | src/app.rs:418-429 | Outside the body the cursor goes to the end of the text; in the body a line past the last changes nothing; validity is kept. |
| Compose.DeleteChar | src/app.rs:431-437 | Inside the text the char at the cursor is removed; at or past the end nothing changes; validity is kept. |
| Compose.DeleteLine | src/app.rs:439-443 | The active field is emptied and the cursor goes to 0. |
| Compose.IndentRight | src/app.rs:445-451 | In the body two spaces are prepended and the cursor moves 2 bytes; elsewhere nothing. |
| Compose.IndentLeft | src/app.rs:453-461 | A body starting with two spaces loses them and the cursor moves back 2, saturating at 0; otherwise nothing. |
| Compose.IndentRightThenLeft | src/app.rs:445-461 | Indenting the body right then left gives back the same state. |
| Compose.Append | src/app.rs:463-466 | A move right, then Insert mode. |
| Compose.AppendEnd | src/app.rs:468-471 | A move to the line end, then Insert mode. |
| Compose.InsertStart | src/app.rs:473-476 | A move to the line start, then Insert mode. |
| Compose.OpenBelow | src/app.rs:478-487 | In the body a newline is appended after the whole body, the cursor put after it, the line advanced and col 0, in Insert mode; the result is valid. |
| Compose.OpenAbove | src/app.rs:489-497 | In the body a newline is inserted at the start of the cursor's line, col 0, Insert mode; validity is kept. |
| Compose.InsertNewline | src/app.rs:499-503 | In the body a newline is pushed at the cursor; elsewhere nothing. |
| Compose.DeleteVisual | src/app.rs:505-518 | With an anchor, the text between anchor and cursor is removed, the end capped at the text's length, and the cursor put at the selection's start; always Normal mode with no anchor afterwards. |
| Compose.VisualDeleteExample | src/app.rs:505-518 | In `"abcdef"` with anchor 1 and cursor 4, visual delete leaves `"aef"`, the cursor at 1 and Normal mode. |
| Compose.PushChar | src/app.rs:520-535 | At a char boundary the char is inserted at the cursor and the cursor moves past its UTF-8 length, the other fields unchanged; in the body a newline gives the next line at col 0 and any other char adds one to col; off a boundary nothing; validity is kept. |
| Compose.PopChar | src/app.rs:537-556 | With the cursor above 0, the char starting one byte before it is removed from the active field alone and the cursor moves back one byte; in the body a removed newline moves to the end of the line above (unless on line 0) and any other char takes one from col (unless 0); at 0 nothing; validity is kept. |
| Compose.PopCharSteps | src/app.rs:537-556 | Backspace is the removal of the char before the cursor followed, in the body only, by the (line, col) update. |
| Compose.PushThenPop | src/app.rs:520-556 | For a one-byte char, push then backspace restores the text and the cursor, and the whole state except col after a newline pushed in the body. |
| Compose.WidePushThenPopPanics | src/app.rs:537-542 | Backspace right after a multi-byte char was pushed reaches the `String::remove` panic. |
| Compose.LineColRoundTrip | src/app.rs:256-302 | For a body without carriage returns and a cursor inside its lines, re-deriving the cursor from its (line, col) changes nothing. |
| Cursor.ProjectFromSpec | src/app.rs:262-270 | The loop started at line i with the offset of that line finds the line holding a cursor inside the lines and its col there, and otherwise stops one line past the last at col 0. |
| Cursor.Project | src/app.rs:256-271 | A cursor inside the lines maps to the line holding it and its offset in that line; past them, to one line beyond the last at col 0. |
| Cursor.Unproject | src/app.rs:273-302 | With lines, (line, col) is clamped into the lines and the cursor is their byte offset, which projects back to the clamped pair; with none, the cursor is 0. |
| Cursor.ProjectThenUnproject | src/app.rs:256-302 | A cursor inside the lines, projected and turned back into a cursor, is the same cursor. |
| Cursor.BodyProjectThenUnproject | src/app.rs:256-302 | The same round trip holds for a body without carriage returns. |
| Cursor.LinesSpan | src/app.rs:262-268 | The lines of a body, each with one byte for its line break, take at most one byte more than the body, exactly the body plus a missing final newline when there is no carriage return. |
| Cursor.UnprojectWithinBody | src/app.rs:273-302 | The cursor derived from any (line, col) lies within the body. |
| Cursor.FloorBoundary | src/app.rs:245-248 | The greatest char boundary not above the cursor. |
| Cursor.Clamp | src/app.rs:238-248 | The greatest char boundary not above the cursor and not past the text; a boundary is kept as it is. |
| Cursor.ClampStepBack | src/app.rs:338-340 | From a boundary, one byte back then clamped is the start of the char before. |
| Cursor.ClampStepForward | src/app.rs:360-363 | From a boundary inside the text, one byte forward then clamped is the next boundary after a one-byte char and stays put before a wider one. |
| Cursor.SkipWord | src/app.rs:371-373 | Stops at the first whitespace char at or after the start, or the end. |
| Cursor.SkipSpace | src/app.rs:374-376 | Stops at the first non-whitespace char at or after the start, or the end. |
| Cursor.WordForwardIndex | src/app.rs:370-376 | The first word start after the char index, or the end of the text; it always advances inside the text. |
| Cursor.SkipSpaceBack | src/app.rs:395-397 | Goes back over whitespace and stops on a non-whitespace char or at 0. |
| Cursor.SkipWordBack | src/app.rs:398-400 | Goes back to just after the preceding whitespace, or to 0. |
| Cursor.WordBackwardIndex | src/app.rs:391-400 | The last word start before the char index, or 0. |
| Cursor.WordForwardCursor | src/app.rs:367-383 | The byte offset of the next word start, or the text's length; on a boundary, and not behind the cursor. |
| Cursor.WordBackwardCursor | src/app.rs:385-407 | The byte offset of the previous word start, or 0; on a boundary, and before the cursor. |
| Cursor.WordIndexExample | src/app.rs:367-407 | On `"hello world  foo"` word-forward gives char 6 then 13, and word-backward from 13 gives 6 then 0. |
| Cursor.AsciiWordCursor | src/app.rs:367-407 | On ASCII text the byte-level word motions agree with the char-level ones. |
| Cursor.WordCursorExample | src/app.rs:367-407 | The byte-level word motions on `"hello world  foo"` give 6, 13, 6, 0. |
| Str.ByteLenBounds | src/app.rs:240 | The byte length of a text, as `str::len` counts it, is at least its char count and at most four times it. |
| Str.BoundaryAtEnds | src/app.rs:246 | Offset 0 and the byte length are char boundaries of every text. |
| Str.IsWhitespace | src/app.rs:372 | `char::is_whitespace` holds of an ASCII char exactly when it is a space, tab, newline, carriage return, vertical tab or form feed. |
| Str.AsciiWhitespace | src/app.rs:372 | The six ASCII whitespace chars are whitespace. |
| Str.Utf8Len | src/app.rs:525 | A char takes 1 to 4 bytes, and 1 exactly when it is ASCII. |
| Str.CharsBefore | src/app.rs:370 | At a char boundary, the number of chars whose bytes come before it. |
| Str.InsertAt | src/app.rs:520-525 | Inserting a char at a boundary adds its UTF-8 length, and both ends of the new char are boundaries. |
| Str.RemoveAt | src/app.rs:537-542 | Removing the char at a boundary takes its UTF-8 length off and leaves that point a boundary. |
| Str.InsertThenRemove | src/app.rs:520-542 | Removing at the point where a char was just inserted gives back the text and that char. |
| Str.InsertWideInterior | src/app.rs:537-542 | One byte before the end of an inserted multi-byte char is no boundary. |
| Str.Drain | src/app.rs:505-518 | Draining a range between two boundaries takes exactly its width off and leaves its start a boundary. |
| Str.TrimStart | src/app.rs:135 | Drops the whitespace prefix and no more. |
| Str.TrimEnd | src/app.rs:135 | Drops the whitespace suffix and no more. |
| Str.Trim | src/app.rs:135 | `str::trim`: the stretch of the text left after the leading and trailing whitespace, all of which is cut and no more. |
| Str.TrimEmptyIffBlank | src/backend/mod.rs:179-195 | A trimmed line is empty exactly when the line is all whitespace. |
| Str.Split | src/backend/mod.rs:56 | The pieces between newlines: at least one, none holding a newline. |
| Str.JoinSplit | src/backend/mod.rs:131 | Joining the newline-separated pieces with newlines gives back the text. |
| Str.LinesNoNewline | src/app.rs:259 | `str::lines` gives no lines exactly for the empty text, and no line holds a newline. |
| Str.LinesConcat | src/backend/mod.rs:113 | The lines of a newline-terminated text followed by more text are the lines of each. |
| Str.LinesOfTerminated | src/backend/mod.rs:56 | A text written with a final newline reads back as its newline-separated pieces when none ends with a carriage return. |
| Backend.StripPrefix | src/backend/mod.rs:116 | A value exactly when the line starts with the tag, and then the line is the tag followed by it. |
| Backend.TagsDiffer | src/backend/mod.rs:116-126 | A `FROM: ` line is never a `SUBJECT: `, `BODY:` or `---` line. |
| Backend.Record | src/backend/mod.rs:128-133 | The entry has the collected sender and subject, the body lines joined by newlines, and no file path. |
| Backend.LegacyStep | src/backend/mod.rs:116-141 | `FROM: ` sets the sender and resets the body; `SUBJECT: ` sets the subject and leaves body mode; `BODY:` enters body mode with no lines; `---` appends the record and resets; any other line is a body line in body mode and is ignored outside it. |
| Backend.LegacyRun | src/backend/mod.rs:113-142 | The loop over the lines only appends to the inbox, exactly one record per `---` line. |
| Backend.LegacyInbox | src/backend/mod.rs:113-152 | The records of the loop and one more exactly when a sender, subject or body line is pending at the end. |
| Backend.FetchInboxLegacy | src/backend/mod.rs:103-154 | The loop and the final pending check return exactly the records of the legacy fold. |
| Backend.LegacyRunConcat | src/backend/mod.rs:113-142 | Running the loop over two stretches of lines is running it over each in turn. |
| Backend.SeparatorRecord | src/backend/mod.rs:126-138 | A `---` line appends the record of what was collected since the last reset, with no file path, and resets everything. |
| Backend.LegacyRunText | src/backend/mod.rs:139-141 | In body mode, text lines are appended to the body in order. |
| Backend.SingleStep | src/backend/mod.rs:166-177 | `FROM: ` and `SUBJECT: ` lines set their value anywhere in the file; `BODY:` enters body mode; any other line is a body line in body mode. |
| Backend.SingleRun | src/backend/mod.rs:166-177 | Body mode is on after the loop exactly when it was on before or a `BODY:` line came; body lines are only appended. |
| Backend.SingleRunSnoc | src/backend/mod.rs:166-177 | The loop over lines and then one more line is the loop followed by one step. |
| Backend.DropLeadingBlank | src/backend/mod.rs:179-186 | Drops the leading all-whitespace lines and no more. |
| Backend.DropTrailingBlank | src/backend/mod.rs:188-195 | Drops the trailing all-whitespace lines and no more. |
| Backend.TrimBlankLines | src/backend/mod.rs:179-195 | Both trimming loops together leave a contiguous stretch of the lines, with only blank lines cut before and after it, and neither its first nor its last line blank. |
| Backend.FirstBodyTag | src/backend/mod.rs:172-173 | The index of the first `BODY:` line, or the number of lines. |
| Backend.SingleHeaders | src/backend/mod.rs:168-171 | The sender and subject are the values of the last `FROM: ` and `SUBJECT: ` lines. |
| Backend.SingleRunInBody | src/backend/mod.rs:172-176 | In body mode every text line joins the body. |
| Backend.SingleRunBody | src/backend/mod.rs:172-176 | Before body mode, the body is the text lines after the first `BODY:`. |
| Backend.SingleEmail | src/backend/mod.rs:158-203 | The record's subject and sender are the last `SUBJECT: ` and `FROM: ` values, its body the text lines after the first `BODY:` with blank lines trimmed at both ends, joined by newlines, and no file path. |
| Backend.ParseSingleEmail | src/backend/mod.rs:158-203 | The line loop and both trimming loops give exactly the record of the single-file fold. |
| Backend.Line | src/backend/mod.rs:52 | A value written as a line: the value and one newline. |
| Backend.Unlines | src/backend/mod.rs:52-69 | Lines written one after another end with a newline. |
| Backend.RecordValues | src/backend/mod.rs:52-69 | The values written, in order: `FROM: ` with the user, `TO: `, `SUBJECT: `, `BODY:`, the body and, in the legacy file only, `---`. |
| Backend.RecordText | src/backend/mod.rs:52-69 | A written record is not empty and ends with a newline. |
| Backend.LinesUnlines | src/backend/mod.rs:52-69 | Values written one per line read back as their newline-separated pieces when none ends in a carriage return. |
| Backend.SplitOneLine | src/backend/mod.rs:52-54 | A value without a newline is one piece. |
| Backend.TaggedSafe | src/backend/mod.rs:52-54 | A tagged header value without line breaks stays one line without a trailing carriage return. |
| Backend.RecordValuesCrFree | src/backend/mod.rs:52-69 | No piece of any written value ends with a carriage return. |
| Backend.TagsCrFree | src/backend/mod.rs:55-69 | `BODY:` and `---` are single lines without carriage returns. |
| Backend.RecordPieces | src/backend/mod.rs:52-69 | A record's values split into the three tagged headers, `BODY:`, the body's pieces and, in the legacy file, `---`. |
| Backend.SplitAllConcat | src/backend/mod.rs:52-69 | Splitting two runs of values is splitting each run. |
| Backend.SplitAllSingles | src/backend/mod.rs:52-69 | Values without newlines split into themselves. |
| Backend.RecordLines | src/backend/mod.rs:52-69 | A written record reads back as the three tagged headers, `BODY:`, the body's lines and, in the legacy file, `---`. |
| Backend.LegacyHeaders | src/backend/mod.rs:116-125 | The four header lines of a record take the legacy loop to body mode with the record's sender and subject and no body lines. |
| Backend.LegacyRecordLines | src/backend/mod.rs:113-141 | The lines of a legacy record add exactly that record to what the loop collects, whatever was pending before. |
| Backend.LegacyRecordRoundTrip | src/backend/mod.rs:59-69 | A record appended to the legacy file is read back as exactly that record, from the user, whatever was pending before. |
| Backend.LinesOfLegacyFile | src/backend/mod.rs:59-69 | The lines of a legacy file are the lines of its records, one after another. |
| Backend.LegacyRecordThen | src/backend/mod.rs:113-141 | A record's lines followed by more: the loop adds the record, resets, and goes on. |
| Backend.Sent | src/backend/mod.rs:64-68 | One entry per draft, in order, with the user as sender and no file path. |
| Backend.LegacyRunFileLines | src/backend/mod.rs:113-142 | The loop over a file's records adds each record in the order written and ends with nothing pending. |
| Backend.LegacyFileRoundTrip | src/backend/mod.rs:59-69 | Reading a legacy file written record by record gives back every record in order with nothing pending. |
| Backend.LegacyInboxRoundTrip | src/backend/mod.rs:103-154 | The legacy `fetch_inbox` on a file written by `send_email` returns exactly the records sent. |
| Backend.SingleRecordRoundTrip | src/backend/mod.rs:41-56 | A record written to a file of its own reads back with the same sender and subject and its body less the blank first and last lines. |
| Backend.SingleRecordLines | src/backend/mod.rs:158-203 | The lines of a one-record file give back its sender, subject and trimmed body lines. |
| Backend.SingleEmailHeadsBody | src/backend/mod.rs:158-203 | Header lines up to a first `BODY:`, then text lines, give the last header values and the trimmed text lines. |
| Backend.FirstBodyTagPrefix | src/backend/mod.rs:172-173 | The first `BODY:` of header lines ending in `BODY:` is that last header line. |
| Backend.HeaderValues | src/backend/mod.rs:168-171 | In a record's header lines the last `FROM: ` value is the user and the last `SUBJECT: ` value is the subject. |
| Backend.TextLinesAll | src/backend/mod.rs:174-176 | Text lines are all kept as body lines. |
| Backend.ForeignLastValue | src/backend/mod.rs:168-171 | Text lines after the headers do not change the last header values. |

## Left out

- Filesystem I/O is not modelled: opening, creating and appending to
  files, `read_dir` and the `.txt` filter, `remove_file` in
  `delete_email`, and `BufReader`. The parsers take the file's lines as a
  sequence, and the writer gives the file's text as a string.
- The `SystemTime` timestamp in the single-file name of `send_email` is not
  modelled, and neither are `anyhow` error propagation or `file_path` being
  set after parsing.
- The reading of lines stands for `BufRead::lines` by `str::lines`. Both
  split after `'\n'` and drop one `'\r'` before it. A read error on
  invalid UTF-8 is not modelled.
- `usize` arithmetic is modelled by unbounded `nat`, because an overflow
  would need a cursor or line count near 2^64.
  `saturating_sub` is written out as an explicit `if`.
- Rust's panics are modelled as preconditions: `String::insert`,
  `insert_str`, `remove` and `drain` off a char boundary, and slicing
  `text[..cursor]` off a boundary in the word motions. The model therefore
  says nothing about the states after those panics.
  `Compose.WidePushThenPopPanics` shows one panic is reachable.
- The terminal UI, keyboard and event dispatch (`tui`), `main` and the
  command-line interface are not part of this model.
- Backend.LegacyRecordRoundTrip: the round-trip lemmas require header
  values without `'\n'` and without a trailing `'\r'`. They also require
  body lines that are neither `---` nor tagged headers and do not end in
  `'\r'`. Values outside these bounds do not read back unchanged, and the
  lemmas say nothing about them.
- Backend.SingleRecordRoundTrip: same restriction on header and body values.
- Compose.LineColRoundTrip: stated only for a body without `'\r'` and a
  cursor inside its lines. With a trailing newline, the cursor at the very
  end projects to a line that does not exist.
