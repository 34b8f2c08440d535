/**
  `App`: the inbox list, its overlays and the compose editor, as an object
  whose methods update its fields in place. Every compose method is proved
  to leave the editor in the state the matching function of `Compose`
  gives, so what is proved there holds of the object.
*/
module App {
  import opened Str
  import opened Cursor
  import E = Compose
  import opened Backend

  datatype Mode = Normal | Command | Help | Viewing | Compose | DeleteConfirm

  class App {
    var inbox: seq<EmailSummary>
    var selected: nat
    var shouldQuit: bool
    var mode: Mode
    var commandBuf: string
    var viewOffset: nat
    var viewHeight: nat
    var composeTo: string
    var composeSubject: string
    var composeBody: string
    var composeField: E.ComposeField
    var composeMode: E.ComposeMode
    var composeCursor: nat
    var composeLine: nat
    var composeCol: nat
    var composeVisualStart: Option<nat>
    var needsRefresh: bool
    var emailToDelete: Option<EmailSummary>

    /** The editor part of the object as a value. */
    function Editor(): E.ComposeState
      reads this
    {
      E.ComposeState(composeTo, composeSubject, composeBody, composeField, composeMode,
        composeCursor, composeLine, composeCol, composeVisualStart)
    }

    /** The editor's cursor lies within the active field. */
    predicate Valid()
      reads this
    {
      E.Valid(Editor())
    }

    /** `App::new`. */
    constructor (inbox: seq<EmailSummary>)
      ensures this.inbox == inbox && selected == 0 && !shouldQuit && mode == Normal
      ensures commandBuf == [] && viewOffset == 0 && viewHeight == 0
      ensures Editor() == E.Start() && Valid()
      ensures !needsRefresh && emailToDelete == None
    {
      this.inbox := inbox;
      selected := 0;
      shouldQuit := false;
      mode := Normal;
      commandBuf := [];
      viewOffset := 0;
      viewHeight := 0;
      composeTo := [];
      composeSubject := [];
      composeBody := [];
      composeField := E.To;
      composeMode := E.Normal;
      composeCursor := 0;
      composeLine := 0;
      composeCol := 0;
      composeVisualStart := None;
      needsRefresh := false;
      emailToDelete := None;
    }

    // ---- inbox list and overlays ----

    /** `on_up`: the selection moves up one entry, stopping at the top. */
    method OnUp()
      modifies this`selected
      ensures selected == if old(selected) > 0 then old(selected) - 1 else 0
      ensures old(selected) < |inbox| ==> selected < |inbox|
    {
      if selected > 0 {
        selected := selected - 1;
      }
    }

    /** `on_down`: the selection moves down one entry, stopping at the last. */
    method OnDown()
      modifies this`selected
      ensures selected == if old(selected) + 1 < |inbox| then old(selected) + 1 else old(selected)
      ensures old(selected) < |inbox| ==> selected < |inbox|
      ensures selected >= old(selected)
    {
      if selected + 1 < |inbox| {
        selected := selected + 1;
      }
    }

    method Quit()
      modifies this`shouldQuit
      ensures shouldQuit
    {
      shouldQuit := true;
    }

    /** `open_selected`: with a selected entry, the viewer opens at its top. */
    method OpenSelected()
      modifies this`mode, this`viewOffset
      ensures old(selected) < |inbox| ==> mode == Viewing && viewOffset == 0
      ensures old(selected) >= |inbox| ==> mode == old(mode) && viewOffset == old(viewOffset)
    {
      if selected < |inbox| {
        mode := Viewing;
        viewOffset := 0;
      }
    }

    /** `close_overlay`: back to the list with every overlay's state cleared. */
    method CloseOverlay()
      modifies this`mode, this`commandBuf, this`viewOffset, this`emailToDelete
      ensures mode == Normal && commandBuf == [] && viewOffset == 0 && emailToDelete == None
    {
      mode := Normal;
      commandBuf := [];
      viewOffset := 0;
      emailToDelete := None;
    }

    method ViewScrollUp()
      modifies this`viewOffset
      ensures viewOffset == if old(viewOffset) > 0 then old(viewOffset) - 1 else 0
    {
      if viewOffset > 0 {
        viewOffset := viewOffset - 1;
      }
    }

    /** `view_scroll_down`: one line further, but never past the offset at
        which the last line sits at the bottom of the view. */
    method ViewScrollDown(totalLines: nat, visibleHeight: nat)
      modifies this`viewOffset
      ensures var maxOffset := if totalLines > visibleHeight then totalLines - visibleHeight else 0;
        if totalLines == 0 || visibleHeight == 0 || old(viewOffset) >= maxOffset then
          viewOffset == old(viewOffset)
        else viewOffset == old(viewOffset) + 1 && viewOffset <= maxOffset
      ensures totalLines <= visibleHeight ==> viewOffset == old(viewOffset)
    {
      if totalLines == 0 || visibleHeight == 0 {
        return;
      }
      var maxOffset := if totalLines > visibleHeight then totalLines - visibleHeight else 0;
      if viewOffset < maxOffset {
        viewOffset := viewOffset + 1;
      }
    }

    method StartCommand()
      modifies this`mode, this`commandBuf
      ensures mode == Command && commandBuf == []
    {
      mode := Command;
      commandBuf := [];
    }

    method PushCommandChar(ch: char)
      modifies this`commandBuf
      ensures commandBuf == old(commandBuf) + [ch]
    {
      commandBuf := commandBuf + [ch];
    }

    /** `pop_command_char`: `String::pop`, a no-op on an empty buffer. */
    method PopCommandChar()
      modifies this`commandBuf
      ensures old(commandBuf) == [] ==> commandBuf == []
      ensures old(commandBuf) != [] ==> commandBuf + [old(commandBuf)[|old(commandBuf)| - 1]] == old(commandBuf)
    {
      if commandBuf != [] {
        commandBuf := commandBuf[..|commandBuf| - 1];
      }
    }

    /** `submit_command`: "help", with any surrounding whitespace, opens the
        help overlay; anything else returns to the list. The buffer is emptied. */
    method SubmitCommand()
      modifies this`mode, this`commandBuf
      ensures mode == (if Trim(old(commandBuf)) == "help" then Help else Normal)
      ensures commandBuf == []
    {
      var cmd := Trim(commandBuf);
      if cmd == "help" {
        mode := Help;
      } else {
        mode := Normal;
      }
      commandBuf := [];
    }

    /** `show_delete_confirm`: with a selected entry, it is kept aside and the
        confirmation overlay opens. */
    method ShowDeleteConfirm()
      modifies this`emailToDelete, this`mode
      ensures old(selected) < |inbox| ==> emailToDelete == Some(inbox[selected]) && mode == DeleteConfirm
      ensures old(selected) >= |inbox| ==> emailToDelete == old(emailToDelete) && mode == old(mode)
    {
      if selected < |inbox| {
        emailToDelete := Some(inbox[selected]);
        mode := DeleteConfirm;
      }
    }

    /** `confirm_delete`: the selected entry leaves the list, the selection
        stays inside the shorter list, and a refresh is requested. */
    method ConfirmDelete()
      modifies this`inbox, this`selected, this`needsRefresh, this`mode
      ensures mode == Normal
      ensures old(selected) < |old(inbox)| ==>
        inbox == old(inbox)[..old(selected)] + old(inbox)[old(selected) + 1..]
        && |inbox| == |old(inbox)| - 1 && needsRefresh
        && (if |inbox| == 0 then selected == 0 else selected < |inbox|)
        && selected == (if old(selected) >= |inbox| && old(selected) > 0 then old(selected) - 1 else old(selected))
      ensures old(selected) >= |old(inbox)| ==>
        inbox == old(inbox) && selected == old(selected) && needsRefresh == old(needsRefresh)
    {
      if selected < |inbox| {
        inbox := inbox[..selected] + inbox[selected + 1..];
        if selected >= |inbox| && selected > 0 {
          selected := selected - 1;
        }
        needsRefresh := true;
      }
      mode := Normal;
    }

    // ---- the compose editor ----

    /** `start_compose`. */
    method StartCompose()
      modifies this`mode, this`composeTo, this`composeSubject, this`composeBody
      modifies this`composeField, this`composeMode, this`composeCursor
      modifies this`composeLine, this`composeCol, this`composeVisualStart
      ensures mode == Compose && Editor() == E.Start() && Valid()
    {
      mode := Compose;
      composeTo := [];
      composeSubject := [];
      composeBody := [];
      composeField := E.To;
      composeMode := E.Normal;
      composeCursor := 0;
      composeLine := 0;
      composeCol := 0;
      composeVisualStart := None;
    }

    /** Replaces the active field's text, as `get_current_field_text_mut` lets
        the callers do. */
    method SetText(t: string)
      modifies this`composeTo, this`composeSubject, this`composeBody
      ensures Editor() == old(Editor()).WithText(t)
    {
      match composeField
      case To => composeTo := t;
      case Subject => composeSubject := t;
      case Body => composeBody := t;
    }

    /** `clamp_cursor`. */
    method ClampCursor()
      modifies this`composeCursor, this`composeLine, this`composeCol
      ensures Editor() == E.ClampCursor(old(Editor()))
      ensures old(Valid()) ==> Valid()
    {
      var text := Editor().Text();
      var len := ByteLen(text);
      if composeCursor > len {
        composeCursor := len;
      }
      ghost var start := composeCursor;
      while composeCursor > 0 && !IsCharBoundary(text, composeCursor)
        invariant composeCursor <= start
        invariant FloorBoundary(text, composeCursor) == FloorBoundary(text, start)
        invariant composeLine == old(composeLine) && composeCol == old(composeCol)
        decreases composeCursor
      {
        composeCursor := composeCursor - 1;
      }
      assert composeCursor == FloorBoundary(text, start) == Clamp(text, old(composeCursor));
      if composeField == E.Body {
        UpdateLineColFromCursor();
      }
    }

    /** `update_line_col_from_cursor`: walks the body's lines until the one
        that holds the cursor. */
    method UpdateLineColFromCursor()
      modifies this`composeLine, this`composeCol
      ensures Editor() == E.UpdateLineColFromCursor(old(Editor()))
      ensures old(Valid()) ==> Valid()
    {
      var lines := Lines(composeBody);
      var cursor := composeCursor;
      ghost var lens := BodyLens(composeBody);
      ghost var target := Project(lens, cursor);
      var pos: nat := 0;
      composeLine := 0;
      composeCol := 0;
      var i := 0;
      while i < |lines|
        invariant i <= |lines| && pos <= cursor
        invariant composeLine == i && composeCol == 0
        invariant ProjectFrom(lens, i, pos, cursor) == target
      {
        var lineLen := ByteLen(lines[i]);
        assert lineLen == lens[i];
        if pos + lineLen >= cursor {
          composeCol := cursor - pos;
          assert LineCol(composeLine, composeCol) == target;
          break;
        }
        pos := pos + lineLen + 1;
        composeLine := composeLine + 1;
        i := i + 1;
      }
      assert LineCol(composeLine, composeCol) == target;
      assert Editor() == old(Editor()).(line := target.line, col := target.col);
    }

    /** `update_cursor_from_line_col`. */
    method UpdateCursorFromLineCol()
      modifies this`composeCursor, this`composeLine, this`composeCol
      ensures Editor() == E.UpdateCursorFromLineCol(old(Editor()))
      ensures old(Valid()) ==> Valid()
    {
      if composeField != E.Body {
        return;
      }
      var lines := Lines(composeBody);
      ghost var lens := BodyLens(composeBody);
      ghost var p := Unproject(lens, composeLine, composeCol);
      if |lines| == 0 {
        composeCursor := 0;
        assert Editor() == old(Editor()).(cursor := p.cursor);
        return;
      }
      if composeLine >= |lines| {
        composeLine := |lines| - 1;
      }
      var pos := 0;
      for i := 0 to composeLine
        invariant pos == LineOffset(lens, i)
      {
        assert ByteLen(lines[i]) == lens[i];
        pos := pos + ByteLen(lines[i]) + 1;
      }
      var line := lines[composeLine];
      assert ByteLen(line) == lens[composeLine];
      if composeCol > ByteLen(line) {
        composeCol := ByteLen(line);
      }
      composeCursor := pos + composeCol;
      assert Pos(composeCursor, composeLine, composeCol) == p;
      assert Editor() == old(Editor()).(cursor := p.cursor, line := p.line, col := p.col);
    }

    method ComposeNextField()
      modifies this`composeField, this`composeCursor, this`composeLine, this`composeCol
      ensures Editor() == E.NextField(old(Editor()))
      ensures old(Valid()) ==> Valid()
    {
      if composeMode == E.Normal || composeMode == E.Visual {
        composeField := E.NextFieldOf(composeField);
        composeCursor := 0;
        ClampCursor();
      }
    }

    method ComposePrevField()
      modifies this`composeField, this`composeCursor, this`composeLine, this`composeCol
      ensures Editor() == E.PrevField(old(Editor()))
      ensures old(Valid()) ==> Valid()
    {
      if composeMode == E.Normal || composeMode == E.Visual {
        composeField := E.PrevFieldOf(composeField);
        composeCursor := 0;
        ClampCursor();
      }
    }

    method ComposeEnterInsert()
      modifies this`composeMode, this`composeVisualStart
      ensures Editor() == E.EnterInsert(old(Editor()))
      ensures old(Valid()) ==> Valid()
    {
      composeMode := E.Insert;
      composeVisualStart := None;
    }

    method ComposeEnterVisual()
      modifies this`composeMode, this`composeVisualStart
      ensures Editor() == E.EnterVisual(old(Editor()))
      ensures old(Valid()) ==> Valid()
    {
      composeMode := E.Visual;
      composeVisualStart := Some(composeCursor);
    }

    method ComposeExitInsert()
      modifies this`composeMode
      ensures Editor() == E.ExitInsert(old(Editor()))
      ensures old(Valid()) ==> Valid()
    {
      composeMode := E.Normal;
    }

    method ComposeExitVisual()
      modifies this`composeMode, this`composeVisualStart
      ensures Editor() == E.ExitVisual(old(Editor()))
      ensures old(Valid()) ==> Valid()
    {
      composeMode := E.Normal;
      composeVisualStart := None;
    }

    method ComposeMoveUp()
      modifies this`composeField, this`composeCursor, this`composeLine, this`composeCol
      ensures Editor() == E.MoveUp(old(Editor()))
      ensures old(Valid()) ==> Valid()
    {
      ghost var s := Editor();
      if composeField == E.Body {
        if composeLine > 0 {
          composeLine := composeLine - 1;
          ghost var s1 := Editor();
          assert s1 == s.(line := s.line - 1);
          UpdateCursorFromLineCol();
          assert E.MoveUp(s) == E.UpdateCursorFromLineCol(s1);
        } else {
          ComposePrevField();
          assert E.MoveUp(s) == E.PrevField(s);
        }
      }
    }

    method ComposeMoveDown()
      modifies this`composeCursor, this`composeLine, this`composeCol
      ensures Editor() == E.MoveDown(old(Editor()))
      ensures old(Valid()) ==> Valid()
    {
      if composeField == E.Body {
        var lines := Lines(composeBody);
        if composeLine + 1 < |lines| {
          ghost var s := Editor();
          composeLine := composeLine + 1;
          ghost var s1 := Editor();
          assert s1 == s.(line := s.line + 1);
          UpdateCursorFromLineCol();
          assert E.MoveDown(s) == E.UpdateCursorFromLineCol(s1);
        }
      }
    }

    method ComposeMoveLeft()
      modifies this`composeCursor, this`composeLine, this`composeCol
      ensures Editor() == E.MoveLeft(old(Editor()))
      ensures old(Valid()) ==> Valid()
    {
      ghost var s := Editor();
      if composeField == E.Body {
        if composeCol > 0 {
          composeCol := composeCol - 1;
          ghost var s1 := Editor();
          assert s1 == s.(col := s.col - 1);
          UpdateCursorFromLineCol();
          assert E.MoveLeft(s) == E.UpdateCursorFromLineCol(s1);
        } else if composeLine > 0 {
          composeLine := composeLine - 1;
          composeCol := E.LineLenOr0(composeBody, composeLine);
          ghost var s1 := Editor();
          assert s1 == s.(line := s.line - 1, col := E.LineLenOr0(s.body, s.line - 1));
          UpdateCursorFromLineCol();
          assert E.MoveLeft(s) == E.UpdateCursorFromLineCol(s1);
        }
      } else if composeCursor > 0 {
        composeCursor := composeCursor - 1;
        ghost var s1 := Editor();
        assert s1 == s.(cursor := s.cursor - 1);
        ClampCursor();
        assert E.MoveLeft(s) == E.ClampCursor(s1);
      }
    }

    method ComposeMoveRight()
      modifies this`composeCursor, this`composeLine, this`composeCol
      ensures Editor() == E.MoveRight(old(Editor()))
      ensures old(Valid()) ==> Valid()
    {
      ghost var s := Editor();
      if composeField == E.Body {
        var lines := Lines(composeBody);
        if composeLine < |lines| {
          var line := lines[composeLine];
          if composeCol < ByteLen(line) {
            composeCol := composeCol + 1;
            ghost var s1 := Editor();
            assert s1 == s.(col := s.col + 1);
            UpdateCursorFromLineCol();
            assert E.MoveRight(s) == E.UpdateCursorFromLineCol(s1);
          } else if composeLine + 1 < |lines| {
            composeLine := composeLine + 1;
            composeCol := 0;
            ghost var s1 := Editor();
            assert s1 == s.(line := s.line + 1, col := 0);
            UpdateCursorFromLineCol();
            assert E.MoveRight(s) == E.UpdateCursorFromLineCol(s1);
          } else {
            assert E.MoveRight(s) == s;
          }
        } else {
          assert E.MoveRight(s) == s;
        }
      } else {
        var text := Editor().Text();
        if composeCursor < ByteLen(text) {
          composeCursor := composeCursor + 1;
          ghost var s1 := Editor();
          assert s1 == s.(cursor := s.cursor + 1);
          ClampCursor();
          assert E.MoveRight(s) == E.ClampCursor(s1);
        } else {
          assert E.MoveRight(s) == s;
        }
      }
    }

    /** `compose_move_word_forward`: over the chars, past the rest of the word
        and then the whitespace after it. */
    method ComposeMoveWordForward()
      requires IsCharBoundary(Editor().Text(), composeCursor)
      modifies this`composeCursor
      ensures Editor() == E.MoveWordForward(old(Editor()))
      ensures old(Valid()) ==> Valid()
    {
      var text := Editor().Text();
      var charPos := CharsBefore(text, composeCursor);
      charPos := WordForwardFrom(text, charPos);
      ByteLenWhole(text);
      composeCursor := if charPos < |text| then ByteLen(text[..charPos]) else ByteLen(text);
    }

    /** The two `while` loops of `compose_move_word_forward` over the chars,
        from char index `k`. */
    static method WordForwardFrom(text: string, k: nat) returns (charPos: nat)
      requires k <= |text|
      ensures charPos == WordForwardIndex(text, k)
    {
      charPos := k;
      ghost var p := SkipWord(text, charPos);
      while charPos < |text| && !IsWhitespace(text[charPos])
        invariant charPos <= |text| && SkipWord(text, charPos) == p
        decreases |text| - charPos
      {
        charPos := charPos + 1;
      }
      ghost var q := SkipSpace(text, charPos);
      while charPos < |text| && IsWhitespace(text[charPos])
        invariant charPos <= |text| && SkipSpace(text, charPos) == q
        decreases |text| - charPos
      {
        charPos := charPos + 1;
      }
    }

    /** `compose_move_word_backward`: over the chars, back past whitespace and
        then to the start of the word before it. */
    method ComposeMoveWordBackward()
      requires composeCursor > 0 ==> IsCharBoundary(Editor().Text(), composeCursor)
      modifies this`composeCursor
      ensures Editor() == E.MoveWordBackward(old(Editor()))
      ensures old(Valid()) ==> Valid()
    {
      if composeCursor == 0 {
        return;
      }
      var text := Editor().Text();
      var charPos := CharsBefore(text, composeCursor);
      assert charPos > 0 by { assert text[..0] == []; }
      charPos := WordBackwardFrom(text, charPos);
      composeCursor := ByteLen(text[..charPos]);
    }

    /** The two `while` loops of `compose_move_word_backward` over the chars,
        from just before char index `k`. */
    static method WordBackwardFrom(text: string, k: nat) returns (charPos: nat)
      requires 0 < k <= |text|
      ensures charPos == WordBackwardIndex(text, k)
    {
      charPos := k - 1;
      ghost var p := SkipSpaceBack(text, charPos);
      while charPos > 0 && IsWhitespace(text[charPos])
        invariant charPos < |text| && SkipSpaceBack(text, charPos) == p
      {
        charPos := charPos - 1;
      }
      ghost var q := SkipWordBack(text, charPos);
      while charPos > 0 && !IsWhitespace(text[charPos - 1])
        invariant charPos <= |text| && SkipWordBack(text, charPos) == q
      {
        charPos := charPos - 1;
      }
    }

    method ComposeMoveLineStart()
      modifies this`composeCursor, this`composeLine, this`composeCol
      ensures Editor() == E.MoveLineStart(old(Editor()))
      ensures old(Valid()) ==> Valid()
    {
      if composeField == E.Body {
        composeCol := 0;
        UpdateCursorFromLineCol();
      } else {
        composeCursor := 0;
      }
    }

    method ComposeMoveLineEnd()
      modifies this`composeCursor, this`composeLine, this`composeCol
      ensures Editor() == E.MoveLineEnd(old(Editor()))
      ensures old(Valid()) ==> Valid()
    {
      if composeField == E.Body {
        var lines := Lines(composeBody);
        if composeLine < |lines| {
          composeCol := ByteLen(lines[composeLine]);
          UpdateCursorFromLineCol();
        }
      } else {
        composeCursor := ByteLen(Editor().Text());
      }
    }

    method ComposeDeleteChar()
      requires composeCursor < ByteLen(Editor().Text()) ==> IsCharBoundary(Editor().Text(), composeCursor)
      modifies this`composeTo, this`composeSubject, this`composeBody
      ensures Editor() == E.DeleteChar(old(Editor()))
      ensures old(Valid()) ==> Valid()
    {
      var cursor := composeCursor;
      var text := Editor().Text();
      if cursor < ByteLen(text) {
        SetText(RemoveAt(text, cursor).0);
      }
    }

    method ComposeDeleteLine()
      modifies this`composeTo, this`composeSubject, this`composeBody, this`composeCursor
      ensures Editor() == E.DeleteLine(old(Editor()))
      ensures old(Valid()) ==> Valid()
    {
      SetText([]);
      composeCursor := 0;
    }

    method ComposeIndentRight()
      modifies this`composeBody, this`composeCursor
      ensures Editor() == E.IndentRight(old(Editor()))
      ensures old(Valid()) ==> Valid()
    {
      if composeField == E.Body {
        composeBody := E.Indent + composeBody;
        composeCursor := composeCursor + 2;
      }
    }

    method ComposeIndentLeft()
      modifies this`composeBody, this`composeCursor
      ensures Editor() == E.IndentLeft(old(Editor()))
      ensures old(Valid()) ==> Valid()
    {
      if composeField == E.Body {
        if E.Indent <= composeBody {
          composeBody := composeBody[2..];
          composeCursor := if composeCursor >= 2 then composeCursor - 2 else 0;
        }
      }
    }

    method ComposeAppend()
      modifies this`composeCursor, this`composeLine, this`composeCol
      modifies this`composeMode, this`composeVisualStart
      ensures Editor() == E.Append(old(Editor()))
      ensures old(Valid()) ==> Valid()
    {
      ComposeMoveRight();
      ComposeEnterInsert();
    }

    method ComposeAppendEnd()
      modifies this`composeCursor, this`composeLine, this`composeCol
      modifies this`composeMode, this`composeVisualStart
      ensures Editor() == E.AppendEnd(old(Editor()))
      ensures old(Valid()) ==> Valid()
    {
      ComposeMoveLineEnd();
      ComposeEnterInsert();
    }

    method ComposeInsertStart()
      modifies this`composeCursor, this`composeLine, this`composeCol
      modifies this`composeMode, this`composeVisualStart
      ensures Editor() == E.InsertStart(old(Editor()))
      ensures old(Valid()) ==> Valid()
    {
      ComposeMoveLineStart();
      ComposeEnterInsert();
    }

    method ComposeOpenBelow()
      modifies this`composeBody, this`composeCursor, this`composeLine, this`composeCol
      modifies this`composeMode, this`composeVisualStart
      ensures Editor() == E.OpenBelow(old(Editor()))
      ensures old(Valid()) ==> Valid()
    {
      ghost var s := Editor();
      if composeField == E.Body {
        ComposeMoveLineEnd();
        ghost var s1 := Editor();
        composeBody := composeBody + "\n";
        composeCursor := ByteLen(composeBody);
        composeLine := composeLine + 1;
        composeCol := 0;
        ghost var s2 := Editor();
        assert s2 == s1.(body := s1.body + "\n", cursor := ByteLen(s1.body + "\n"), line := s1.line + 1, col := 0);
        ComposeEnterInsert();
        assert Editor() == E.EnterInsert(s2);
      }
    }

    method ComposeOpenAbove()
      requires composeField == E.Body ==> IsCharBoundary(composeBody, E.MoveLineStart(Editor()).cursor)
      modifies this`composeBody, this`composeCursor, this`composeLine, this`composeCol
      modifies this`composeMode, this`composeVisualStart
      ensures Editor() == E.OpenAbove(old(Editor()))
      ensures old(Valid()) ==> Valid()
    {
      ghost var s := Editor();
      if composeField == E.Body {
        ComposeMoveLineStart();
        ghost var s1 := Editor();
        composeBody := InsertAt(composeBody, composeCursor, '\n');
        composeCol := 0;
        ghost var s2 := Editor();
        assert s2 == s1.(body := InsertAt(s1.body, s1.cursor, '\n'), col := 0);
        ComposeEnterInsert();
        assert Editor() == E.EnterInsert(s2);
      }
    }

    method ComposeInsertNewline()
      modifies this`composeTo, this`composeSubject, this`composeBody
      modifies this`composeCursor, this`composeLine, this`composeCol
      ensures Editor() == E.InsertNewline(old(Editor()))
      ensures old(Valid()) ==> Valid()
    {
      if composeField == E.Body {
        ComposePushChar('\n');
      }
    }

    method ComposeDeleteVisual()
      requires E.CanDeleteVisual(Editor())
      modifies this`composeTo, this`composeSubject, this`composeBody, this`composeCursor
      modifies this`composeMode, this`composeVisualStart
      ensures Editor() == E.DeleteVisual(old(Editor()))
      ensures old(Valid()) ==> Valid()
    {
      if composeVisualStart.Some? {
        var start := composeVisualStart.value;
        var cursor := composeCursor;
        var begin, end := if start < cursor then start else cursor, if start < cursor then cursor else start;
        var text := Editor().Text();
        var len := ByteLen(text);
        SetText(Drain(text, begin, if end < len then end else len));
        composeCursor := begin;
      }
      ComposeExitVisual();
    }

    method ComposePushChar(ch: char)
      modifies this`composeTo, this`composeSubject, this`composeBody
      modifies this`composeCursor, this`composeLine, this`composeCol
      ensures Editor() == E.PushChar(old(Editor()), ch)
      ensures old(Valid()) ==> Valid()
    {
      var cursor := composeCursor;
      var text := Editor().Text();
      if cursor <= ByteLen(text) && IsCharBoundary(text, cursor) {
        SetText(InsertAt(text, cursor, ch));
        composeCursor := composeCursor + Utf8Len(ch);
        if composeField == E.Body {
          if ch == '\n' {
            composeLine := composeLine + 1;
            composeCol := 0;
          } else {
            composeCol := composeCol + 1;
          }
        }
      }
    }

    method ComposePopChar()
      requires E.CanPop(Editor())
      modifies this`composeTo, this`composeSubject, this`composeBody
      modifies this`composeCursor, this`composeLine, this`composeCol
      ensures Editor() == E.PopChar(old(Editor()))
      ensures old(Valid()) ==> Valid()
    {
      ghost var s := Editor();
      if composeCursor > 0 {
        composeCursor := composeCursor - 1;
        var cursor := composeCursor;
        var text := Editor().Text();
        var (rest, removedChar) := RemoveAt(text, cursor);
        E.PopCharSteps(s, rest, removedChar);
        SetText(rest);
        if composeField == E.Body {
          composeLine, composeCol := PopLineColFrom(rest, composeLine, composeCol, removedChar);
        }
      }
    }

    /** The (line, col) update of `compose_pop_char` after the body lost `removed`. */
    static method PopLineColFrom(body: string, line0: nat, col0: nat, removed: char)
      returns (line: nat, col: nat)
      ensures (line, col) == E.PopLineCol(body, line0, col0, removed)
    {
      line, col := line0, col0;
      if removed == '\n' {
        if line > 0 {
          line := line - 1;
          var lines := Lines(body);
          col := if line < |lines| then ByteLen(lines[line]) else 0;
        }
      } else if col > 0 {
        col := col - 1;
      }
    }

    /** `get_compose_data`: the three fields as they are to be sent. */
    function GetComposeData(): (r: (string, string, string))
      reads this
      ensures r == (Editor().to, Editor().subject, Editor().body)
    {
      (composeTo, composeSubject, composeBody)
    }
  }
}
