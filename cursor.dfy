/**
  The position arithmetic of the compose editor: the (line, col) projection of
  a byte cursor in the body and back, the walk back to a char boundary, and
  the two word motions. Lines are measured in bytes, as `str::len` does.
*/
module Cursor {
  import opened Str

  /** The byte length of each line. */
  function LineLens(ls: seq<string>): seq<nat>
  {
    seq(|ls|, i requires 0 <= i < |ls| => ByteLen(ls[i]))
  }

  /** The byte length of each of `body.lines()`. */
  function BodyLens(body: string): seq<nat>
  {
    LineLens(Lines(body))
  }

  lemma LineLensCons(head: string, ls: seq<string>)
    ensures LineLens([head] + ls) == [ByteLen(head)] + LineLens(ls)
  {
  }

  /** The byte offset at which line `k` starts when every line before it is
      followed by exactly one `'\n'`. */
  function LineOffset(lens: seq<nat>, k: nat): nat
    requires k <= |lens|
  {
    if k == 0 then 0 else LineOffset(lens, k - 1) + lens[k - 1] + 1
  }

  lemma {:induction false} LineOffsetGrows(lens: seq<nat>, i: nat, j: nat)
    requires i < j <= |lens|
    ensures LineOffset(lens, i) + lens[i] + 1 <= LineOffset(lens, j)
    decreases j - i
  {
    if i + 1 < j {
      LineOffsetGrows(lens, i + 1, j);
    }
  }

  lemma {:induction false} LineOffsetCons(lens: seq<nat>, k: nat)
    requires 1 <= k <= |lens|
    ensures LineOffset(lens, k) == lens[0] + 1 + LineOffset(lens[1..], k - 1)
  {
    if k > 1 {
      LineOffsetCons(lens, k - 1);
    }
  }

  datatype LineCol = LineCol(line: nat, col: nat)

  /** The loop of `update_line_col_from_cursor` from line `i` on, `pos` being
      the offset at which line `i` starts. */
  function ProjectFrom(lens: seq<nat>, i: nat, pos: nat, cursor: nat): LineCol
    requires i <= |lens| && pos <= cursor
    decreases |lens| - i
  {
    if i == |lens| then LineCol(i, 0)
    else if pos + lens[i] >= cursor then LineCol(i, cursor - pos)
    else ProjectFrom(lens, i + 1, pos + lens[i] + 1, cursor)
  }

  lemma {:induction false} ProjectFromSpec(lens: seq<nat>, i: nat, cursor: nat)
    requires i <= |lens| && LineOffset(lens, i) <= cursor
    ensures var r := ProjectFrom(lens, i, LineOffset(lens, i), cursor);
      if cursor < LineOffset(lens, |lens|) then
        i <= r.line < |lens| && r.col <= lens[r.line] && LineOffset(lens, r.line) + r.col == cursor
      else
        r == LineCol(|lens|, 0)
    decreases |lens| - i
  {
    if i < |lens| {
      LineOffsetGrows(lens, i, |lens|);
      if LineOffset(lens, i) + lens[i] < cursor {
        ProjectFromSpec(lens, i + 1, cursor);
      }
    }
  }

  /** The (line, col) that `update_line_col_from_cursor` derives from a cursor:
      inside the lines, the line holding the cursor and the cursor's byte
      offset in it; past them, one line beyond the last at column 0. */
  function Project(lens: seq<nat>, cursor: nat): (r: LineCol)
    ensures cursor < LineOffset(lens, |lens|) ==>
      r.line < |lens| && r.col <= lens[r.line] && LineOffset(lens, r.line) + r.col == cursor
    ensures cursor >= LineOffset(lens, |lens|) ==> r == LineCol(|lens|, 0)
  {
    ProjectFromSpec(lens, 0, cursor);
    ProjectFrom(lens, 0, 0, cursor)
  }

  datatype Pos = Pos(cursor: nat, line: nat, col: nat)

  /** What `update_cursor_from_line_col` computes: with no lines, cursor 0 and
      (line, col) untouched; otherwise line clamped to the last line, col to
      that line's length, and the cursor at that place. */
  function Unproject(lens: seq<nat>, line: nat, col: nat): (r: Pos)
    ensures lens == [] ==> r == Pos(0, line, col)
    ensures lens != [] ==> r.line < |lens| && r.col <= lens[r.line]
    ensures lens != [] ==> r.cursor < LineOffset(lens, |lens|)
    ensures lens != [] ==> Project(lens, r.cursor) == LineCol(r.line, r.col)
    ensures line < |lens| ==> r.line == line
    ensures line < |lens| && col <= lens[line] ==> r.col == col
    ensures lens != [] ==> r.line == if line < |lens| then line else |lens| - 1
    ensures lens != [] ==> r.col == if col <= lens[r.line] then col else lens[r.line]
  {
    if lens == [] then Pos(0, line, col)
    else
      var l := if line >= |lens| then |lens| - 1 else line;
      var c := if col > lens[l] then lens[l] else col;
      ProjectOfOffset(lens, l, c);
      Pos(LineOffset(lens, l) + c, l, c)
  }

  /** Every (line, col) inside the lines is the projection of its offset. */
  lemma ProjectOfOffset(lens: seq<nat>, line: nat, col: nat)
    requires line < |lens| && col <= lens[line]
    ensures LineOffset(lens, line) + col < LineOffset(lens, |lens|)
    ensures Project(lens, LineOffset(lens, line) + col) == LineCol(line, col)
  {
    var c := LineOffset(lens, line) + col;
    LineOffsetGrows(lens, line, |lens|);
    assert c < LineOffset(lens, |lens|);
    var r := Project(lens, c);
    OffsetsApart(lens, r.line, r.col, line, col);
  }

  /** Two places inside the lines at the same offset are the same place. */
  lemma OffsetsApart(lens: seq<nat>, l1: nat, c1: nat, l2: nat, c2: nat)
    requires l1 < |lens| && c1 <= lens[l1] && l2 < |lens| && c2 <= lens[l2]
    requires LineOffset(lens, l1) + c1 == LineOffset(lens, l2) + c2
    ensures l1 == l2 && c1 == c2
  {
    if l1 < l2 {
      LineOffsetGrows(lens, l1, l2);
    } else if l2 < l1 {
      LineOffsetGrows(lens, l2, l1);
    }
  }

  /** Round trip: a cursor inside the lines, projected to (line, col) and
      turned back into a cursor, is the cursor it was. */
  lemma ProjectThenUnproject(lens: seq<nat>, cursor: nat)
    requires cursor == 0 || cursor < LineOffset(lens, |lens|)
    ensures var p := Project(lens, cursor);
      Unproject(lens, p.line, p.col) == Pos(cursor, p.line, p.col)
  {
    if lens != [] && cursor == 0 {
      assert LineOffset(lens, 0) + lens[0] < LineOffset(lens, |lens|) by {
        LineOffsetGrows(lens, 0, |lens|);
      }
    }
  }

  predicate NoCr(s: string)
  {
    '\r' !in s
  }

  predicate EndsWithNewline(s: string)
  {
    |s| > 0 && s[|s| - 1] == '\n'
  }

  lemma StripCrShorter(t: string)
    ensures ByteLen(StripCr(t)) <= ByteLen(t)
    ensures '\r' !in t ==> StripCr(t) == t
  {
    if EndsWithCr(t) {
      assert t == t[..|t| - 1] + [t[|t| - 1]];
      ByteLenConcat(t[..|t| - 1], [t[|t| - 1]]);
    }
  }

  /** The bytes of `ls`, each line followed by one line break. */
  function LinesBytes(ls: seq<string>): nat
  {
    if ls == [] then 0 else ByteLen(ls[0]) + 1 + LinesBytes(ls[1..])
  }

  lemma LinesBytesCons(head: string, ls: seq<string>)
    ensures LinesBytes([head] + ls) == ByteLen(head) + 1 + LinesBytes(ls)
  {
    assert ([head] + ls)[1..] == ls;
  }

  lemma {:induction false} LineOffsetAll(ls: seq<string>)
    ensures LineOffset(LineLens(ls), |ls|) == LinesBytes(ls)
    decreases |ls|
  {
    if ls != [] {
      var lens := LineLens(ls);
      assert lens[1..] == LineLens(ls[1..]);
      LineOffsetCons(lens, |lens|);
      LineOffsetAll(ls[1..]);
    }
  }

  lemma {:induction false} LinesBytesSpan(s: string)
    ensures LinesBytes(Lines(s)) <= ByteLen(s) + 1
    ensures NoCr(s) ==>
      LinesBytes(Lines(s)) == ByteLen(s) + (if s == [] || EndsWithNewline(s) then 0 else 1)
    decreases |s|
  {
    if s != [] {
      var i := IndexOfNewline(s);
      if i == |s| {
        LinesWhole(s);
        LinesBytesCons(s, []);
        if EndsWithNewline(s) {
          IndexOfNewlineAtMost(s, |s| - 1);
        }
      } else {
        var rest := s[i + 1..];
        var head := StripCr(s[..i]);
        LinesAt(s, i);
        LinesBytesCons(head, Lines(rest));
        LinesBytesSpan(rest);
        StripCrShorter(s[..i]);
        SliceAround(s, i);
        ByteLenConcat(s[..i] + ['\n'], rest);
        ByteLenConcat(s[..i], ['\n']);
        if NoCr(s) {
          assert '\r' !in s[..i];
          assert NoCr(rest);
          assert rest == [] ==> EndsWithNewline(s);
          assert rest != [] ==> (EndsWithNewline(s) <==> EndsWithNewline(rest));
        }
      }
    }
  }

  /** The lines of a body, each counted with one byte for its line break, take
      at most one byte more than the body; with no `'\r'` they take exactly
      the body plus a missing final `'\n'`. */
  lemma LinesSpan(s: string)
    ensures LineOffset(BodyLens(s), |Lines(s)|) <= ByteLen(s) + 1
    ensures NoCr(s) ==>
      LineOffset(BodyLens(s), |Lines(s)|) == ByteLen(s) + (if s == [] || EndsWithNewline(s) then 0 else 1)
  {
    LineOffsetAll(Lines(s));
    LinesBytesSpan(s);
  }

  /** Round trip on a body: with no `'\r'`, every cursor up to the end of the
      body, except the one right after a final `'\n'`, survives
      cursor -> (line, col) -> cursor. */
  lemma BodyProjectThenUnproject(body: string, cursor: nat)
    requires NoCr(body) && cursor <= ByteLen(body)
    requires !(EndsWithNewline(body) && cursor == ByteLen(body))
    ensures var lens := BodyLens(body);
      var p := Project(lens, cursor);
      Unproject(lens, p.line, p.col).cursor == cursor
  {
    LinesSpan(body);
    ProjectThenUnproject(BodyLens(body), cursor);
  }

  /** The cursor `update_cursor_from_line_col` computes lies inside the body. */
  lemma UnprojectWithinBody(body: string, line: nat, col: nat)
    ensures Unproject(BodyLens(body), line, col).cursor <= ByteLen(body)
  {
    LinesSpan(body);
  }

  /** The `while` loop of `clamp_cursor`: step back until a char boundary. */
  function FloorBoundary(s: string, c: nat): (r: nat)
    ensures r <= c && IsCharBoundary(s, r)
    ensures forall b :: r < b <= c ==> !IsCharBoundary(s, b)
    decreases c
  {
    if c == 0 then
      BoundaryAtEnds(s);
      0
    else if IsCharBoundary(s, c) then c
    else FloorBoundary(s, c - 1)
  }

  /** The cursor `clamp_cursor` leaves: the greatest char boundary at or below
      both the cursor and the end of the text. */
  function Clamp(s: string, c: nat): (r: nat)
    ensures r <= c && r <= ByteLen(s) && IsCharBoundary(s, r)
    ensures forall b :: r < b <= c && b <= ByteLen(s) ==> !IsCharBoundary(s, b)
    ensures IsCharBoundary(s, c) ==> r == c
  {
    var r := FloorBoundary(s, if c > ByteLen(s) then ByteLen(s) else c);
    BoundaryWithin(s, r);
    assert IsCharBoundary(s, c) ==> c <= ByteLen(s) by {
      if IsCharBoundary(s, c) { BoundaryWithin(s, c); }
    }
    r
  }

  lemma CharsBeforeUnique(s: string, b: nat, k: nat)
    requires k <= |s| && ByteLen(s[..k]) == b
    ensures IsCharBoundary(s, b) && CharsBefore(s, b) == k
  {
    BoundaryAtPrefix(s, k);
    ByteLenPrefixInjective(s, k, CharsBefore(s, b));
  }

  /** A byte offset inside char `k` (or at its start) clamps to the start of char `k`. */
  lemma ClampInsideChar(s: string, k: nat, c: nat)
    requires k < |s| && ByteLen(s[..k]) <= c < ByteLen(s[..k + 1])
    ensures Clamp(s, c) == ByteLen(s[..k])
  {
    var p := ByteLen(s[..k]);
    BoundaryAtPrefix(s, k);
    BoundaryWithin(s, p);
    var r := Clamp(s, c);
    assert p <= r by {
      assert IsCharBoundary(s, p) && p <= c && p <= ByteLen(s);
    }
    var m :| 0 <= m <= |s| && ByteLen(s[..m]) == r;
    assert m <= k by {
      if m > k { ByteLenPrefixGrows(s, k + 1, m); }
    }
    ByteLenPrefixGrows(s, m, k);
  }

  /** Outside the body, `h` (cursor - 1, then clamp) lands on the start of the
      char before the cursor. */
  lemma ClampStepBack(s: string, c: nat)
    requires IsCharBoundary(s, c) && c > 0
    ensures CharsBefore(s, c) > 0
    ensures Clamp(s, c - 1) == ByteLen(s[..CharsBefore(s, c) - 1])
  {
    var k := CharsBefore(s, c);
    assert k > 0 by { assert s[..0] == []; }
    ByteLenPrefixStep(s, k - 1);
    ClampInsideChar(s, k - 1, c - 1);
  }

  /** Outside the body, `l` (cursor + 1, then clamp) steps over a one-byte char
      and is walked back onto the cursor before a wider one. */
  lemma ClampStepForward(s: string, c: nat)
    requires IsCharBoundary(s, c) && c < ByteLen(s)
    ensures CharsBefore(s, c) < |s|
    ensures Clamp(s, c + 1) == if Utf8Len(s[CharsBefore(s, c)]) == 1 then c + 1 else c
  {
    var k := CharsBefore(s, c);
    assert k < |s| by { ByteLenWhole(s); }
    ByteLenPrefixStep(s, k);
    if Utf8Len(s[k]) == 1 {
      BoundaryAtPrefix(s, k + 1);
      BoundaryWithin(s, c + 1);
    } else {
      ClampInsideChar(s, k, c + 1);
    }
  }

  // ---- word motions, over char indices ----

  /** The first `while` of `compose_move_word_forward`: skip non-whitespace. */
  function SkipWord(s: string, k: nat): (r: nat)
    requires k <= |s|
    ensures k <= r <= |s|
    ensures r < |s| ==> IsWhitespace(s[r])
    ensures forall j :: k <= j < r ==> !IsWhitespace(s[j])
    decreases |s| - k
  {
    if k < |s| && !IsWhitespace(s[k]) then SkipWord(s, k + 1) else k
  }

  /** The second `while` of `compose_move_word_forward`: skip whitespace. */
  function SkipSpace(s: string, k: nat): (r: nat)
    requires k <= |s|
    ensures k <= r <= |s|
    ensures r < |s| ==> !IsWhitespace(s[r])
    ensures forall j :: k <= j < r ==> IsWhitespace(s[j])
    decreases |s| - k
  {
    if k < |s| && IsWhitespace(s[k]) then SkipSpace(s, k + 1) else k
  }

  /** A word starts at `j`: a non-whitespace char right after a whitespace one. */
  predicate WordStart(s: string, j: nat)
  {
    0 < j < |s| && IsWhitespace(s[j - 1]) && !IsWhitespace(s[j])
  }

  /** The char index `w` reaches from char index `k`: the first word start
      after `k`, or the end of the text. */
  function WordForwardIndex(s: string, k: nat): (r: nat)
    requires k <= |s|
    ensures k <= r <= |s|
    ensures k < |s| ==> k < r
    ensures r == |s| || WordStart(s, r)
    ensures forall j :: k < j < r ==> !WordStart(s, j)
  {
    var p := SkipWord(s, k);
    var r := SkipSpace(s, p);
    assert r < |s| ==> p < r;
    r
  }

  /** The first `while` of `compose_move_word_backward`: skip whitespace back. */
  function SkipSpaceBack(s: string, p: nat): (r: nat)
    requires p < |s|
    ensures r <= p
    ensures r > 0 ==> !IsWhitespace(s[r])
    ensures forall j :: r < j <= p ==> IsWhitespace(s[j])
  {
    if p > 0 && IsWhitespace(s[p]) then SkipSpaceBack(s, p - 1) else p
  }

  /** The second `while` of `compose_move_word_backward`: skip back to a word's start. */
  function SkipWordBack(s: string, p: nat): (r: nat)
    requires p <= |s|
    ensures r <= p
    ensures r > 0 ==> IsWhitespace(s[r - 1])
    ensures forall j :: r <= j < p ==> !IsWhitespace(s[j])
  {
    if p > 0 && !IsWhitespace(s[p - 1]) then SkipWordBack(s, p - 1) else p
  }

  /** The char index `b` reaches from char index `k > 0`: the last word start
      before `k`, or the start of the text. */
  function WordBackwardIndex(s: string, k: nat): (r: nat)
    requires 0 < k <= |s|
    ensures r < k
    ensures r == 0 || WordStart(s, r)
    ensures forall j :: r < j < k ==> !WordStart(s, j)
  {
    var q := SkipSpaceBack(s, k - 1);
    SkipWordBack(s, q)
  }

  /** The byte cursor after `w` from a boundary cursor `c`. */
  function WordForwardCursor(s: string, c: nat): (r: nat)
    requires IsCharBoundary(s, c)
    ensures c <= r <= ByteLen(s) && IsCharBoundary(s, r)
    ensures c < ByteLen(s) ==> c < r
    ensures r == ByteLen(s) || WordStart(s, CharsBefore(s, r))
    ensures forall j :: CharsBefore(s, c) < j < CharsBefore(s, r) ==> !WordStart(s, j)
  {
    var k := CharsBefore(s, c);
    var w := WordForwardIndex(s, k);
    ByteLenPrefixGrows(s, k, w);
    ByteLenPrefixGrows(s, w, |s|);
    ByteLenWhole(s);
    CharsBeforeUnique(s, ByteLen(s[..w]), w);
    ByteLen(s[..w])
  }

  /** The byte cursor after `b` from a boundary cursor `c > 0`. */
  function WordBackwardCursor(s: string, c: nat): (r: nat)
    requires IsCharBoundary(s, c) && c > 0
    ensures r < c && IsCharBoundary(s, r)
    ensures r == 0 || WordStart(s, CharsBefore(s, r))
    ensures forall j :: CharsBefore(s, r) < j < CharsBefore(s, c) ==> !WordStart(s, j)
  {
    var k := CharsBefore(s, c);
    assert k > 0 by { assert s[..0] == []; }
    var w := WordBackwardIndex(s, k);
    ByteLenPrefixGrows(s, w, k);
    CharsBeforeUnique(s, ByteLen(s[..w]), w);
    assert w == 0 ==> ByteLen(s[..w]) == 0 by { assert s[..0] == []; }
    ByteLen(s[..w])
  }

  /** The char indices `w` and `b` reach on "hello world  foo". */
  lemma WordIndexExample(t: string)
    requires t == "hello world  foo"
    ensures WordForwardIndex(t, 0) == 6 && WordForwardIndex(t, 6) == 13
    ensures WordBackwardIndex(t, 13) == 6 && WordBackwardIndex(t, 6) == 0
  {
    WordSkips(t);
    assert SkipWord(t, 0) == 5 && SkipSpace(t, 5) == 6;
    assert SkipWord(t, 6) == 11 && SkipSpace(t, 11) == 13;
    assert SkipSpaceBack(t, 12) == SkipSpaceBack(t, 11) == SkipSpaceBack(t, 10) == 10;
    assert SkipWordBack(t, 10) == 6;
    assert SkipSpaceBack(t, 5) == SkipSpaceBack(t, 4) == 4;
    assert SkipWordBack(t, 4) == 0;
  }

  /** Which chars of "hello world  foo" are whitespace. */
  lemma WordSkips(t: string)
    requires t == "hello world  foo"
    ensures |t| == 16
    ensures forall j :: 0 <= j < 5 ==> !IsWhitespace(t[j])
    ensures forall j :: 6 <= j < 11 ==> !IsWhitespace(t[j])
    ensures IsWhitespace(t[5]) && IsWhitespace(t[11]) && IsWhitespace(t[12]) && !IsWhitespace(t[13])
  {
  }

  /** On ASCII text the byte cursors of `w` and `b` are their char indices. */
  lemma AsciiWordCursor(t: string, c: nat)
    requires IsAscii(t) && c <= |t|
    ensures IsCharBoundary(t, c)
    ensures WordForwardCursor(t, c) == WordForwardIndex(t, c)
    ensures c > 0 ==> WordBackwardCursor(t, c) == WordBackwardIndex(t, c)
  {
    AsciiByteLen(t);
    AsciiPrefix(t, WordForwardIndex(t, c));
    if c > 0 {
      AsciiPrefix(t, WordBackwardIndex(t, c));
    }
  }

  /** The byte cursors `w` and `b` reach on "hello world  foo". */
  lemma WordCursorExample(t: string)
    requires t == "hello world  foo"
    ensures IsCharBoundary(t, 0) && IsCharBoundary(t, 6) && IsCharBoundary(t, 13)
    ensures WordForwardCursor(t, 0) == 6 && WordForwardCursor(t, 6) == 13
    ensures WordBackwardCursor(t, 13) == 6 && WordBackwardCursor(t, 6) == 0
  {
    assert IsAscii(t);
    AsciiWordCursor(t, 0);
    AsciiWordCursor(t, 6);
    AsciiWordCursor(t, 13);
    WordIndexExample(t);
  }
}
