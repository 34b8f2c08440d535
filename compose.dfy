/**
  The compose editor of `App` as a value: the three fields, the active field,
  the edit mode, the byte cursor, the (line, col) of the body and the visual
  anchor, with one function per `compose_*` operation giving the state it
  leaves. The class `App.App` runs these operations in place and is proved
  to agree with them.
*/
module Compose {
  import opened Str
  import opened Cursor

  datatype ComposeField = To | Subject | Body
  datatype ComposeMode = Normal | Insert | Visual

  function NextFieldOf(f: ComposeField): ComposeField
  {
    match f
    case To => Subject
    case Subject => Body
    case Body => To
  }

  function PrevFieldOf(f: ComposeField): ComposeField
  {
    match f
    case To => Body
    case Subject => To
    case Body => Subject
  }

  /** Field cycling is a rotation of order three with `PrevFieldOf` its inverse. */
  lemma FieldCycle(f: ComposeField)
    ensures NextFieldOf(NextFieldOf(NextFieldOf(f))) == f
    ensures PrevFieldOf(NextFieldOf(f)) == f && NextFieldOf(PrevFieldOf(f)) == f
    ensures NextFieldOf(f) != f && PrevFieldOf(f) != f
  {
  }

  datatype ComposeState = ComposeState(
    to: string, subject: string, body: string,
    field: ComposeField, mode: ComposeMode,
    cursor: nat, line: nat, col: nat,
    visualStart: Option<nat>)
  {
    /** `get_current_field_text`. */
    function Text(): (r: string)
      ensures field == To ==> r == to
      ensures field == Subject ==> r == subject
      ensures field == Body ==> r == body
    {
      match field
      case To => to
      case Subject => subject
      case Body => body
    }

    /** The state with the active field's text replaced by `t`. */
    function WithText(t: string): (r: ComposeState)
      ensures r.Text() == t && r.field == field
      ensures r.(to := to, subject := subject, body := body) == this
      ensures (field == To || r.to == to) && (field == Subject || r.subject == subject)
      ensures field == Body || r.body == body
      ensures t == Text() ==> r == this
    {
      match field
      case To => this.(to := t)
      case Subject => this.(subject := t)
      case Body => this.(body := t)
    }
  }

  /** The cursor lies within the active field's text. */
  predicate Valid(s: ComposeState)
  {
    s.cursor <= ByteLen(s.Text())
  }

  /** The state `start_compose` sets up. */
  function Start(): (r: ComposeState)
    ensures Valid(r) && r.Text() == []
    ensures r.to == r.subject == r.body == []
    ensures r.field == To && r.mode == Normal && r.visualStart == None
    ensures r.cursor == 0 && r.line == 0 && r.col == 0
  {
    ComposeState([], [], [], To, Normal, 0, 0, 0, None)
  }

  /** `update_line_col_from_cursor`: (line, col) := projection of the cursor. */
  function UpdateLineColFromCursor(s: ComposeState): (r: ComposeState)
    ensures LineCol(r.line, r.col) == Project(BodyLens(s.body), s.cursor)
    ensures r.(line := s.line, col := s.col) == s
  {
    var p := Project(BodyLens(s.body), s.cursor);
    s.(line := p.line, col := p.col)
  }

  /** `update_cursor_from_line_col`: in the body, line and col are clamped to
      the lines and the cursor moved to that place; an empty body puts the
      cursor at 0. Elsewhere nothing changes. */
  function UpdateCursorFromLineCol(s: ComposeState): (r: ComposeState)
    ensures s.field != Body ==> r == s
    ensures s.field == Body ==> Valid(r)
    ensures s.field == Body && Lines(s.body) == [] ==> r == s.(cursor := 0)
    ensures s.field == Body && Lines(s.body) != [] ==>
      LineCol(r.line, r.col) == Project(BodyLens(s.body), r.cursor)
    ensures s.field == Body && Lines(s.body) != [] ==>
      var p := Unproject(BodyLens(s.body), s.line, s.col);
      (r.cursor, r.line, r.col) == (p.cursor, p.line, p.col)
    ensures s.line < |Lines(s.body)| ==> r.line == s.line
    ensures s.line < |Lines(s.body)| && s.col <= ByteLen(Lines(s.body)[s.line]) ==> r.col == s.col
    ensures s.field == Body && s.line >= |Lines(s.body)| && Lines(s.body) != [] ==>
      r.line == |Lines(s.body)| - 1
    ensures s.field == Body && s.line < |Lines(s.body)| && s.col > ByteLen(Lines(s.body)[s.line]) ==>
      r.col == ByteLen(Lines(s.body)[s.line])
    ensures r.(cursor := s.cursor, line := s.line, col := s.col) == s
  {
    if s.field != Body then s
    else
      var p := Unproject(BodyLens(s.body), s.line, s.col);
      UnprojectWithinBody(s.body, s.line, s.col);
      s.(cursor := p.cursor, line := p.line, col := p.col)
  }

  /** `clamp_cursor`: the cursor is put on the greatest char boundary at or
      below it and the end of the text; in the body, (line, col) is then
      derived from it. */
  function ClampCursor(s: ComposeState): (r: ComposeState)
    ensures Valid(r) && IsCharBoundary(r.Text(), r.cursor)
    ensures r.cursor <= s.cursor
    ensures r.cursor == Clamp(s.Text(), s.cursor)
    ensures r.field == Body ==> LineCol(r.line, r.col) == Project(BodyLens(r.body), r.cursor)
    ensures r.field != Body ==> r == s.(cursor := r.cursor)
    ensures r.(cursor := s.cursor, line := s.line, col := s.col) == s
  {
    var s1 := s.(cursor := Clamp(s.Text(), s.cursor));
    if s.field == Body then UpdateLineColFromCursor(s1) else s1
  }

  /** `compose_next_field`: outside Insert mode the next field becomes active
      with the cursor at 0; in Insert mode nothing changes. */
  function NextField(s: ComposeState): (r: ComposeState)
    ensures s.mode != Insert ==>
      r.field == NextFieldOf(s.field) && r.cursor == 0 && r.mode == s.mode
      && r.visualStart == s.visualStart
      && (r.to, r.subject, r.body) == (s.to, s.subject, s.body)
    ensures s.mode != Insert && r.field == Body ==> r.line == 0 && r.col == 0
    ensures s.mode != Insert && r.field != Body ==> r.line == s.line && r.col == s.col
    ensures s.mode == Insert ==> r == s
    ensures Valid(s) ==> Valid(r)
  {
    if s.mode != Insert then ClampCursor(s.(field := NextFieldOf(s.field), cursor := 0)) else s
  }

  /** `compose_prev_field`: as `NextField`, in the other direction. */
  function PrevField(s: ComposeState): (r: ComposeState)
    ensures s.mode != Insert ==>
      r.field == PrevFieldOf(s.field) && r.cursor == 0 && r.mode == s.mode
      && r.visualStart == s.visualStart
      && (r.to, r.subject, r.body) == (s.to, s.subject, s.body)
    ensures s.mode != Insert && r.field == Body ==> r.line == 0 && r.col == 0
    ensures s.mode != Insert && r.field != Body ==> r.line == s.line && r.col == s.col
    ensures s.mode == Insert ==> r == s
    ensures Valid(s) ==> Valid(r)
  {
    if s.mode != Insert then ClampCursor(s.(field := PrevFieldOf(s.field), cursor := 0)) else s
  }

  /** Three forward switches, or one forward and one back, return to the field. */
  lemma FieldSwitchRoundTrips(s: ComposeState)
    ensures NextField(NextField(NextField(s))).field == s.field
    ensures PrevField(NextField(s)).field == s.field
    ensures NextField(PrevField(s)).field == s.field
  {
    FieldCycle(s.field);
  }

  function EnterInsert(s: ComposeState): (r: ComposeState)
    ensures r == s.(mode := Insert, visualStart := None)
    ensures Valid(r) <==> Valid(s)
  {
    s.(mode := Insert, visualStart := None)
  }

  function EnterVisual(s: ComposeState): (r: ComposeState)
    ensures r == s.(mode := Visual, visualStart := Some(s.cursor))
    ensures Valid(r) <==> Valid(s)
  {
    s.(mode := Visual, visualStart := Some(s.cursor))
  }

  function ExitInsert(s: ComposeState): (r: ComposeState)
    ensures r == s.(mode := Normal)
    ensures Valid(r) <==> Valid(s)
  {
    s.(mode := Normal)
  }

  function ExitVisual(s: ComposeState): (r: ComposeState)
    ensures r == s.(mode := Normal, visualStart := None)
    ensures Valid(r) <==> Valid(s)
  {
    s.(mode := Normal, visualStart := None)
  }

  /** Entering and leaving Visual mode restores the state but for the mode it
      was entered from; entering and leaving Insert mode keeps the cursor. */
  lemma ModeRoundTrips(s: ComposeState)
    ensures ExitVisual(EnterVisual(s)) == s.(mode := Normal, visualStart := None)
    ensures ExitInsert(EnterInsert(s)).cursor == s.cursor
    ensures ExitInsert(EnterInsert(s)).visualStart == None
  {
  }

  /** `compose_move_up`: in the body, one line up or, from line 0, to the
      previous field; elsewhere nothing. */
  function MoveUp(s: ComposeState): (r: ComposeState)
    ensures s.field != Body ==> r == s
    ensures s.field == Body && s.line == 0 ==> r == PrevField(s)
    ensures s.field == Body && s.line > 0 ==> r == UpdateCursorFromLineCol(s.(line := s.line - 1))
    ensures Valid(s) ==> Valid(r)
  {
    if s.field == Body then
      if s.line > 0 then UpdateCursorFromLineCol(s.(line := s.line - 1)) else PrevField(s)
    else s
  }

  /** `compose_move_down`: in the body and above the last line, one line
      down; otherwise nothing. */
  function MoveDown(s: ComposeState): (r: ComposeState)
    ensures s.field != Body || s.line + 1 >= |Lines(s.body)| ==> r == s
    ensures s.field == Body && s.line + 1 < |Lines(s.body)| ==>
      r.line == s.line + 1 && r == UpdateCursorFromLineCol(s.(line := s.line + 1))
    ensures Valid(s) ==> Valid(r)
  {
    if s.field == Body && s.line + 1 < |Lines(s.body)| then
      UpdateCursorFromLineCol(s.(line := s.line + 1))
    else s
  }

  /** The byte length of line `l`, or 0 past the last line
      (`lines.get(l).map(|l| l.len()).unwrap_or(0)`). */
  function LineLenOr0(body: string, l: nat): nat
  {
    var ls := Lines(body);
    if l < |ls| then ByteLen(ls[l]) else 0
  }

  /** `compose_move_left`: in the body col goes down by one byte, or from col 0
      to the end of the line above; elsewhere the cursor goes back one byte
      and is clamped. */
  function MoveLeft(s: ComposeState): (r: ComposeState)
    ensures Valid(s) ==> Valid(r)
    ensures s.field != Body && s.cursor > 0 ==> r.cursor == Clamp(s.Text(), s.cursor - 1)
    ensures s.field == Body && s.col > 0 ==> r == UpdateCursorFromLineCol(s.(col := s.col - 1))
    ensures s.field == Body && s.col == 0 && s.line > 0 ==>
      r == UpdateCursorFromLineCol(s.(line := s.line - 1, col := LineLenOr0(s.body, s.line - 1)))
    ensures (s.field == Body && s.col == 0 && s.line == 0) || (s.field != Body && s.cursor == 0) ==> r == s
    ensures r.(cursor := s.cursor, line := s.line, col := s.col) == s
  {
    if s.field == Body then
      if s.col > 0 then UpdateCursorFromLineCol(s.(col := s.col - 1))
      else if s.line > 0 then
        UpdateCursorFromLineCol(s.(line := s.line - 1, col := LineLenOr0(s.body, s.line - 1)))
      else s
    else if s.cursor > 0 then ClampCursor(s.(cursor := s.cursor - 1))
    else s
  }

  /** `compose_move_right`: in the body col goes up by one byte, or from the
      end of a line to the start of the next; elsewhere the cursor goes on
      one byte and is clamped. */
  function MoveRight(s: ComposeState): (r: ComposeState)
    ensures Valid(s) ==> Valid(r)
    ensures s.field != Body && s.cursor < ByteLen(s.Text()) ==> r.cursor == Clamp(s.Text(), s.cursor + 1)
    ensures s.field == Body && s.line < |Lines(s.body)| && s.col < LineLenOr0(s.body, s.line) ==>
      r == UpdateCursorFromLineCol(s.(col := s.col + 1))
    ensures s.field == Body && s.col >= LineLenOr0(s.body, s.line) && s.line + 1 < |Lines(s.body)| ==>
      r == UpdateCursorFromLineCol(s.(line := s.line + 1, col := 0))
    ensures s.field == Body && s.col >= LineLenOr0(s.body, s.line) && s.line + 1 >= |Lines(s.body)| ==> r == s
    ensures s.field != Body && s.cursor >= ByteLen(s.Text()) ==> r == s
    ensures r.(cursor := s.cursor, line := s.line, col := s.col) == s
  {
    if s.field == Body then
      var ls := Lines(s.body);
      if s.line < |ls| then
        if s.col < ByteLen(ls[s.line]) then UpdateCursorFromLineCol(s.(col := s.col + 1))
        else if s.line + 1 < |ls| then UpdateCursorFromLineCol(s.(line := s.line + 1, col := 0))
        else s
      else s
    else if s.cursor < ByteLen(s.Text()) then ClampCursor(s.(cursor := s.cursor + 1))
    else s
  }

  /** `compose_move_word_forward`; Rust panics at `text[..cursor]` unless the
      cursor is a char boundary. */
  function MoveWordForward(s: ComposeState): (r: ComposeState)
    requires IsCharBoundary(s.Text(), s.cursor)
    ensures r == s.(cursor := WordForwardCursor(s.Text(), s.cursor))
    ensures s.cursor <= r.cursor && Valid(r) && IsCharBoundary(r.Text(), r.cursor)
  {
    s.(cursor := WordForwardCursor(s.Text(), s.cursor))
  }

  /** `compose_move_word_backward`: nothing at 0; otherwise Rust panics at
      `text[..cursor]` unless the cursor is a char boundary. */
  function MoveWordBackward(s: ComposeState): (r: ComposeState)
    requires s.cursor > 0 ==> IsCharBoundary(s.Text(), s.cursor)
    ensures s.cursor == 0 ==> r == s
    ensures s.cursor > 0 ==> r == s.(cursor := WordBackwardCursor(s.Text(), s.cursor))
    ensures r.cursor <= s.cursor && (Valid(s) ==> Valid(r))
  {
    if s.cursor == 0 then s else s.(cursor := WordBackwardCursor(s.Text(), s.cursor))
  }

  /** `compose_move_line_start`. */
  function MoveLineStart(s: ComposeState): (r: ComposeState)
    ensures s.field != Body ==> r == s.(cursor := 0)
    ensures s.field == Body ==> r == UpdateCursorFromLineCol(s.(col := 0))
    ensures Valid(s) ==> Valid(r)
  {
    if s.field == Body then UpdateCursorFromLineCol(s.(col := 0)) else s.(cursor := 0)
  }

  /** `compose_move_line_end`. */
  function MoveLineEnd(s: ComposeState): (r: ComposeState)
    ensures s.field != Body ==> r == s.(cursor := ByteLen(s.Text()))
    ensures s.field == Body && s.line < |Lines(s.body)| ==>
      r == UpdateCursorFromLineCol(s.(col := LineLenOr0(s.body, s.line)))
    ensures s.field == Body && s.line >= |Lines(s.body)| ==> r == s
    ensures Valid(s) ==> Valid(r)
  {
    if s.field == Body then
      var ls := Lines(s.body);
      if s.line < |ls| then UpdateCursorFromLineCol(s.(col := ByteLen(ls[s.line]))) else s
    else s.(cursor := ByteLen(s.Text()))
  }

  /** `compose_delete_char`: the char at the cursor goes; Rust panics at
      `String::remove` unless the cursor is a char boundary. Cursor, line and
      col stay as they are. */
  function DeleteChar(s: ComposeState): (r: ComposeState)
    requires s.cursor < ByteLen(s.Text()) ==> IsCharBoundary(s.Text(), s.cursor)
    ensures s.cursor >= ByteLen(s.Text()) ==> r == s
    ensures s.cursor < ByteLen(s.Text()) ==> r == s.WithText(RemoveAt(s.Text(), s.cursor).0)
    ensures Valid(s) ==> Valid(r)
  {
    if s.cursor < ByteLen(s.Text()) then s.WithText(RemoveAt(s.Text(), s.cursor).0) else s
  }

  /** `compose_delete_line` ("dd"): the whole active field is cleared. */
  function DeleteLine(s: ComposeState): (r: ComposeState)
    ensures r == s.WithText([]).(cursor := 0)
    ensures Valid(r)
  {
    s.WithText([]).(cursor := 0)
  }

  const Indent: string := "  "

  /** `compose_indent_right`: two spaces before the whole body. */
  function IndentRight(s: ComposeState): (r: ComposeState)
    ensures s.field != Body ==> r == s
    ensures s.field == Body ==> r == s.(body := Indent + s.body, cursor := s.cursor + 2)
    ensures Valid(s) ==> Valid(r)
  {
    if s.field == Body then
      ByteLenConcat(Indent, s.body);
      s.(body := Indent + s.body, cursor := s.cursor + 2)
    else s
  }

  /** `compose_indent_left`: two leading spaces of the body go, if it has them. */
  function IndentLeft(s: ComposeState): (r: ComposeState)
    ensures s.field == Body && Indent <= s.body ==>
      r == s.(body := s.body[2..], cursor := if s.cursor >= 2 then s.cursor - 2 else 0)
    ensures !(s.field == Body && Indent <= s.body) ==> r == s
    ensures Valid(s) ==> Valid(r)
  {
    if s.field == Body && Indent <= s.body then
      assert s.body == Indent + s.body[2..];
      ByteLenConcat(Indent, s.body[2..]);
      s.(body := s.body[2..], cursor := if s.cursor >= 2 then s.cursor - 2 else 0)
    else s
  }

  /** An indent is undone by the indent after it. */
  lemma IndentRightThenLeft(s: ComposeState)
    requires s.field == Body
    ensures IndentLeft(IndentRight(s)) == s
  {
    assert (Indent + s.body)[2..] == s.body;
  }

  /** `compose_append` ("a"). */
  function Append(s: ComposeState): (r: ComposeState)
    ensures r == EnterInsert(MoveRight(s))
    ensures r.mode == Insert && (Valid(s) ==> Valid(r))
  {
    EnterInsert(MoveRight(s))
  }

  /** `compose_append_end` ("A"). */
  function AppendEnd(s: ComposeState): (r: ComposeState)
    ensures r == EnterInsert(MoveLineEnd(s))
    ensures r.mode == Insert && (Valid(s) ==> Valid(r))
  {
    EnterInsert(MoveLineEnd(s))
  }

  /** `compose_insert_start` ("I"). */
  function InsertStart(s: ComposeState): (r: ComposeState)
    ensures r == EnterInsert(MoveLineStart(s))
    ensures r.mode == Insert && (Valid(s) ==> Valid(r))
  {
    EnterInsert(MoveLineStart(s))
  }

  /** `compose_open_below` ("o"): in the body, a `'\n'` is appended at the end
      of the whole body and the cursor put after it, in Insert mode. */
  function OpenBelow(s: ComposeState): (r: ComposeState)
    ensures s.field != Body ==> r == s
    ensures s.field == Body ==>
      r.body == MoveLineEnd(s).body + "\n" && r.cursor == ByteLen(r.body)
      && r.line == MoveLineEnd(s).line + 1 && r.col == 0
      && r.mode == Insert && r.visualStart == None
      && (r.to, r.subject, r.field) == (s.to, s.subject, s.field)
    ensures Valid(r) || s.field != Body
  {
    if s.field == Body then
      var s1 := MoveLineEnd(s);
      var b := s1.body + "\n";
      EnterInsert(s1.(body := b, cursor := ByteLen(b), line := s1.line + 1, col := 0))
    else s
  }

  /** `compose_open_above` ("O"): in the body, a `'\n'` is inserted at the
      start of the cursor's line, in Insert mode; Rust panics at
      `insert_str` unless that place is a char boundary. */
  function OpenAbove(s: ComposeState): (r: ComposeState)
    requires s.field == Body ==> IsCharBoundary(s.body, MoveLineStart(s).cursor)
    ensures s.field != Body ==> r == s
    ensures s.field == Body ==>
      var s1 := MoveLineStart(s);
      r == s1.(body := InsertAt(s1.body, s1.cursor, '\n'), col := 0, mode := Insert, visualStart := None)
    ensures Valid(s) ==> Valid(r)
  {
    if s.field == Body then
      var s1 := MoveLineStart(s);
      EnterInsert(s1.(body := InsertAt(s1.body, s1.cursor, '\n'), col := 0))
    else s
  }

  /** `compose_push_char`: at a char boundary, `ch` is inserted at the cursor
      and the cursor moves past it; in the body, a `'\n'` starts the next
      line and any other char adds one to col. Off a boundary nothing
      changes. */
  function PushChar(s: ComposeState, ch: char): (r: ComposeState)
    ensures !IsCharBoundary(s.Text(), s.cursor) ==> r == s
    ensures IsCharBoundary(s.Text(), s.cursor) ==>
      r.Text() == InsertAt(s.Text(), s.cursor, ch) && r.cursor == s.cursor + Utf8Len(ch)
    ensures IsCharBoundary(s.Text(), s.cursor) ==>
      r.(line := s.line, col := s.col) ==
        s.WithText(InsertAt(s.Text(), s.cursor, ch)).(cursor := s.cursor + Utf8Len(ch))
    ensures IsCharBoundary(s.Text(), s.cursor) && s.field == Body ==>
      (r.line, r.col) == if ch == '\n' then (s.line + 1, 0) else (s.line, s.col + 1)
    ensures s.field != Body ==> r.line == s.line && r.col == s.col
    ensures Valid(s) ==> Valid(r)
    ensures r.field == s.field && r.mode == s.mode && r.visualStart == s.visualStart
  {
    var t := s.Text();
    if s.cursor <= ByteLen(t) && IsCharBoundary(t, s.cursor) then
      var s1 := s.WithText(InsertAt(t, s.cursor, ch)).(cursor := s.cursor + Utf8Len(ch));
      if s.field == Body then
        if ch == '\n' then s1.(line := s.line + 1, col := 0) else s1.(col := s.col + 1)
      else s1
    else
      assert IsCharBoundary(t, s.cursor) ==> s.cursor <= ByteLen(t) by {
        if IsCharBoundary(t, s.cursor) { BoundaryWithin(t, s.cursor); }
      }
      s
  }

  /** Rust's `String::remove(cursor - 1)` in `compose_pop_char` panics unless
      the byte before the cursor starts a char inside the text. */
  predicate CanPop(s: ComposeState)
  {
    s.cursor > 0 ==> s.cursor - 1 < ByteLen(s.Text()) && IsCharBoundary(s.Text(), s.cursor - 1)
  }

  /** `compose_pop_char` (backspace): the char that starts one byte before the
      cursor goes and the cursor moves back one byte; in the body, removing a
      `'\n'` moves to the end of the line above and anything else takes one
      from col. Nothing at 0. */
  function PopChar(s: ComposeState): (r: ComposeState)
    requires CanPop(s)
    ensures s.cursor == 0 ==> r == s
    ensures s.cursor > 0 ==>
      r.cursor == s.cursor - 1 && r.Text() == RemoveAt(s.Text(), s.cursor - 1).0
    ensures s.cursor > 0 ==>
      var (t, removed) := RemoveAt(s.Text(), s.cursor - 1);
      r.(line := s.line, col := s.col) == s.WithText(t).(cursor := s.cursor - 1)
      && (s.field == Body ==> (r.line, r.col) == PopLineCol(t, s.line, s.col, removed))
    ensures s.field != Body ==> r.line == s.line && r.col == s.col
    ensures Valid(s) ==> Valid(r)
    ensures r.field == s.field && r.mode == s.mode && r.visualStart == s.visualStart
  {
    if s.cursor == 0 then s
    else
      var c := s.cursor - 1;
      var (t, removed) := RemoveAt(s.Text(), c);
      var s1 := s.WithText(t).(cursor := c);
      if s.field != Body then s1
      else
        var lc := PopLineCol(t, s.line, s.col, removed);
        s1.(line := lc.0, col := lc.1)
  }

  /** The body's (line, col) after backspace removed `removed`, leaving the
      body `t`: a `'\n'` moves to the end of the line above unless on line 0;
      any other char takes one from col unless it is 0. */
  function PopLineCol(t: string, line: nat, col: nat, removed: char): (nat, nat)
  {
    if removed == '\n' then
      if line > 0 then (line - 1, LineLenOr0(t, line - 1)) else (line, col)
    else (line, if col > 0 then col - 1 else col)
  }

  /** `PopChar` as the text step followed by the (line, col) step. */
  lemma PopCharSteps(s: ComposeState, t: string, removed: char)
    requires CanPop(s) && s.cursor > 0 && RemoveAt(s.Text(), s.cursor - 1) == (t, removed)
    ensures var s1 := s.WithText(t).(cursor := s.cursor - 1);
      var lc := PopLineCol(t, s.line, s.col, removed);
      PopChar(s) == if s.field == Body then s1.(line := lc.0, col := lc.1) else s1
  {
  }

  /** `compose_insert_newline`. */
  function InsertNewline(s: ComposeState): (r: ComposeState)
    ensures s.field == Body ==> r == PushChar(s, '\n')
    ensures s.field != Body ==> r == s
    ensures Valid(s) ==> Valid(r)
  {
    if s.field == Body then PushChar(s, '\n') else s
  }

  /** The selection `[min(anchor, cursor), max(anchor, cursor))`, its end cut
      at the end of the text. */
  function SelectionStart(anchor: nat, cursor: nat): nat
  {
    if anchor < cursor then anchor else cursor
  }

  function SelectionEnd(t: string, anchor: nat, cursor: nat): nat
  {
    var e := if anchor < cursor then cursor else anchor;
    if e < ByteLen(t) then e else ByteLen(t)
  }

  /** Rust's `drain(begin..end)` in `compose_delete_visual` panics unless the
      range is ordered and both ends are char boundaries. */
  predicate CanDeleteVisual(s: ComposeState)
  {
    s.visualStart.Some? ==>
      var b := SelectionStart(s.visualStart.value, s.cursor);
      var e := SelectionEnd(s.Text(), s.visualStart.value, s.cursor);
      b <= e && IsCharBoundary(s.Text(), b) && IsCharBoundary(s.Text(), e)
  }

  /** `compose_delete_visual`: with an anchor, the selection is removed and the
      cursor put at its start; in any case Normal mode with no anchor follows. */
  function DeleteVisual(s: ComposeState): (r: ComposeState)
    requires CanDeleteVisual(s)
    ensures s.visualStart.None? ==> r == ExitVisual(s)
    ensures s.visualStart.Some? ==>
      var b := SelectionStart(s.visualStart.value, s.cursor);
      var e := SelectionEnd(s.Text(), s.visualStart.value, s.cursor);
      r == ExitVisual(s.WithText(Drain(s.Text(), b, e)).(cursor := b))
      && ByteLen(r.Text()) == ByteLen(s.Text()) - (e - b)
    ensures r.mode == Normal && r.visualStart == None
    ensures Valid(s) || s.visualStart.Some? ==> Valid(r)
  {
    match s.visualStart
    case None => ExitVisual(s)
    case Some(a) =>
      var t := s.Text();
      var b := SelectionStart(a, s.cursor);
      var e := SelectionEnd(t, a, s.cursor);
      var t' := Drain(t, b, e);
      BoundaryWithin(t', b);
      ExitVisual(s.WithText(t').(cursor := b))
  }

  // ---- properties relating several operations ----

  /** Backspace after typing a one-byte char restores the text and the
      cursor; unless that char was a body `'\n'`, the whole state. */
  lemma PushThenPop(s: ComposeState, ch: char)
    requires IsCharBoundary(s.Text(), s.cursor) && Utf8Len(ch) == 1
    ensures CanPop(PushChar(s, ch))
    ensures PopChar(PushChar(s, ch)).Text() == s.Text()
    ensures PopChar(PushChar(s, ch)).cursor == s.cursor
    ensures s.field != Body || ch != '\n' ==> PopChar(PushChar(s, ch)) == s
    ensures s.field == Body && ch == '\n' ==>
      PopChar(PushChar(s, ch)) == s.(col := LineLenOr0(s.body, s.line))
  {
    InsertThenRemove(s.Text(), s.cursor, ch);
    BoundaryWithin(s.Text(), s.cursor);
  }

  /** Backspace right after typing a multi-byte char is a Rust panic: the
      byte before the cursor lies inside that char. */
  lemma WidePushThenPopPanics(s: ComposeState, ch: char)
    requires IsCharBoundary(s.Text(), s.cursor) && Utf8Len(ch) > 1
    ensures !CanPop(PushChar(s, ch))
  {
    InsertWideInterior(s.Text(), s.cursor, ch);
    BoundaryWithin(s.Text(), s.cursor);
  }

  /** In the body, deriving (line, col) from the cursor and the cursor from
      (line, col) gives the cursor back, when it does not lie after a final
      `'\n'` and the body has no `'\r'`. */
  lemma LineColRoundTrip(s: ComposeState)
    requires s.field == Body && NoCr(s.body) && s.cursor <= ByteLen(s.body)
    requires !(EndsWithNewline(s.body) && s.cursor == ByteLen(s.body))
    ensures UpdateCursorFromLineCol(UpdateLineColFromCursor(s)) == UpdateLineColFromCursor(s)
  {
    BodyProjectThenUnproject(s.body, s.cursor);
  }

  /** Outside the body, `h` from a boundary lands on the start of the char
      before the cursor, and `l` steps over a one-byte char but stays put
      before a wider one. */
  lemma FieldHorizontal(s: ComposeState)
    requires s.field != Body && IsCharBoundary(s.Text(), s.cursor)
    ensures s.cursor > 0 ==>
      CharsBefore(s.Text(), s.cursor) > 0
      && MoveLeft(s).cursor == ByteLen(s.Text()[..CharsBefore(s.Text(), s.cursor) - 1])
    ensures s.cursor < ByteLen(s.Text()) ==>
      CharsBefore(s.Text(), s.cursor) < |s.Text()|
      && MoveRight(s).cursor ==
         if Utf8Len(s.Text()[CharsBefore(s.Text(), s.cursor)]) == 1 then s.cursor + 1 else s.cursor
  {
    var t := s.Text();
    if s.cursor > 0 {
      ClampStepBack(t, s.cursor);
      assert MoveLeft(s).cursor == Clamp(t, s.cursor - 1);
    }
    if s.cursor < ByteLen(t) {
      ClampStepForward(t, s.cursor);
      assert MoveRight(s).cursor == Clamp(t, s.cursor + 1);
    }
  }

  // ---- worked examples ----

  /** In a field holding "hello world  foo", `w` twice from 0 stops at 6 and
      13, and `b` twice from 13 goes back to 6 and 0. */
  lemma WordMotionExample(s: ComposeState)
    requires s.Text() == "hello world  foo" && s.cursor == 0
    ensures IsCharBoundary(s.Text(), 0) && IsCharBoundary(s.Text(), 6) && IsCharBoundary(s.Text(), 13)
    ensures MoveWordForward(s).cursor == 6
    ensures MoveWordForward(MoveWordForward(s)).cursor == 13
    ensures MoveWordBackward(s.(cursor := 13)).cursor == 6
    ensures MoveWordBackward(MoveWordBackward(s.(cursor := 13))).cursor == 0
  {
    var t := s.Text();
    WordCursorExample(t);
    var s6 := s.(cursor := 6);
    assert s6.Text() == t;
    assert MoveWordForward(s) == s6;
    assert MoveWordForward(s6) == s.(cursor := 13);
    assert MoveWordBackward(s.(cursor := 13)) == s6;
    assert MoveWordBackward(s6) == s.(cursor := 0);
  }

  /** With anchor 1 and cursor 4 in "abcdef", `d` in Visual mode leaves "aef"
      with the cursor at 1 in Normal mode. */
  lemma VisualDeleteExample(s: ComposeState)
    requires s.Text() == "abcdef" && s.visualStart == Some(1) && s.cursor == 4
    ensures CanDeleteVisual(s)
    ensures DeleteVisual(s).Text() == "aef"
    ensures DeleteVisual(s).cursor == 1 && DeleteVisual(s).mode == Normal
    ensures DeleteVisual(s).visualStart == None
  {
    var t := s.Text();
    assert IsAscii(t);
    AsciiByteLen(t);
    assert t[..1] + t[4..] == "aef";
  }

  /** Body `l` moves col by one byte: on a body holding "é" (two bytes) it
      puts the cursor inside the char. */
  lemma BodyRightSplitsChar(s: ComposeState)
    requires s.field == Body && s.body == "\U{E9}" && s.line == 0 && s.col == 0
    ensures MoveRight(s).cursor == 1
    ensures !IsCharBoundary(s.body, 1)
  {
    var b := s.body;
    assert Lines(b) == [b] by {
      assert IndexOfNewline(b) == 1;
    }
    assert ByteLen(b) == 2;
    assert BodyLens(b) == [2];
    assert LineOffset([2], 1) == 3;
    assert b[..0] == [] && b[..1] == b;
  }
}
