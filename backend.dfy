/**
  The plain-text mail records of `FileBackend`: the legacy single file of
  `---`-separated records, the one-record files of a mail directory, and the
  record layout `send_email` writes. Files are given as the lines Rust's
  `BufRead::lines` yields, which split like `str::lines`.
*/
module Backend {
  import opened Str

  /** `EmailSummary`; a file path is kept as its text. */
  datatype EmailSummary = EmailSummary(subject: string, from: string, body: string, filePath: Option<string>)

  const FromTag: string := "FROM: "
  const ToTag: string := "TO: "
  const SubjectTag: string := "SUBJECT: "
  const BodyTag: string := "BODY:"
  const Separator: string := "---"

  /** `str::strip_prefix`. */
  function StripPrefix(line: string, tag: string): (r: Option<string>)
    ensures r.Some? <==> tag <= line
    ensures r.Some? ==> line == tag + r.value
  {
    if tag <= line then
      assert line == tag + line[|tag|..];
      Some(line[|tag|..])
    else None
  }

  /** The tags begin with different letters, so a line carries at most one. */
  lemma TagsDiffer(line: string)
    ensures FromTag <= line ==> line[0] == 'F' && !(SubjectTag <= line)
    ensures SubjectTag <= line ==> line[0] == 'S'
    ensures FromTag <= line || SubjectTag <= line ==> line != BodyTag && line != Separator
  {
  }

  /** A line no header test claims: not a `FROM: ` or `SUBJECT: ` line and
      not `BODY:`. */
  predicate IsText(line: string)
  {
    !(FromTag <= line) && !(SubjectTag <= line) && line != BodyTag
  }

  /** The record made from the accumulated header values and body lines. */
  function Record(from: string, subject: string, bodyLines: seq<string>): (e: EmailSummary)
    ensures e.from == from && e.subject == subject && e.filePath == None
    ensures e.body == Join(bodyLines, "\n")
  {
    EmailSummary(subject, from, Join(bodyLines, "\n"), None)
  }

  // ---- the legacy file of `---`-separated records (mod.rs:103-154) ----

  /** The accumulators of the legacy loop. */
  datatype LegacyState = LegacyState(
    inbox: seq<EmailSummary>, from: string, subject: string,
    bodyLines: seq<string>, inBody: bool)

  const LegacyStart: LegacyState := LegacyState([], [], [], [], false)

  /** The state a `---` line leaves: one more record, the accumulators reset. */
  function Flush(a: LegacyState): LegacyState
  {
    LegacyState(a.inbox + [Record(a.from, a.subject, a.bodyLines)], [], [], [], false)
  }

  /** One turn of the legacy loop. */
  function LegacyStep(a: LegacyState, line: string): (r: LegacyState)
    ensures FromTag <= line ==>
      r == a.(from := line[|FromTag|..], inBody := false, bodyLines := [])
    ensures SubjectTag <= line ==> r == a.(subject := line[|SubjectTag|..], inBody := false)
    ensures line == BodyTag ==> r == a.(inBody := true, bodyLines := [])
    ensures line == Separator ==> r == Flush(a)
    ensures IsText(line) && line != Separator ==>
      r == if a.inBody then a.(bodyLines := a.bodyLines + [line]) else a
  {
    TagsDiffer(line);
    match StripPrefix(line, FromTag)
    case Some(rest) => a.(from := rest, inBody := false, bodyLines := [])
    case None =>
      match StripPrefix(line, SubjectTag)
      case Some(rest) => a.(subject := rest, inBody := false)
      case None =>
        if line == BodyTag then a.(inBody := true, bodyLines := [])
        else if line == Separator then Flush(a)
        else if a.inBody then a.(bodyLines := a.bodyLines + [line])
        else a
  }

  /** The number of `---` lines. */
  function Separators(lines: seq<string>): nat
  {
    if lines == [] then 0 else (if lines[0] == Separator then 1 else 0) + Separators(lines[1..])
  }

  /** The legacy loop over `lines` from state `a`; it only ever appends to
      the inbox, one record per `---` line. */
  function LegacyRun(a: LegacyState, lines: seq<string>): (r: LegacyState)
    ensures |r.inbox| == |a.inbox| + Separators(lines)
    ensures a.inbox <= r.inbox
    decreases |lines|
  {
    if lines == [] then a
    else
      var b := LegacyStep(a, lines[0]);
      assert a.inbox <= b.inbox;
      LegacyRun(b, lines[1..])
  }

  /** Something is pending once the loop ends: a from, a subject or a body line. */
  predicate Pending(a: LegacyState)
  {
    !(a.from == [] && a.subject == [] && a.bodyLines == [])
  }

  /** The inbox of a legacy file: the records the loop collects and, if
      anything is pending at the end, one more; so one record per `---` line,
      and one more exactly when something is pending after the last of them. */
  function LegacyInbox(lines: seq<string>): (r: seq<EmailSummary>)
    ensures LegacyRun(LegacyStart, lines).inbox <= r
    ensures |r| == Separators(lines) + (if Pending(LegacyRun(LegacyStart, lines)) then 1 else 0)
  {
    var a := LegacyRun(LegacyStart, lines);
    if Pending(a) then a.inbox + [Record(a.from, a.subject, a.bodyLines)] else a.inbox
  }

  /** The legacy branch of `fetch_inbox`, over the lines of the file. */
  method FetchInboxLegacy(lines: seq<string>) returns (inbox: seq<EmailSummary>)
    ensures inbox == LegacyInbox(lines)
  {
    inbox := [];
    var from: string := [];
    var subject: string := [];
    var bodyLines: seq<string> := [];
    var inBody := false;
    for i := 0 to |lines|
      invariant LegacyRun(LegacyState(inbox, from, subject, bodyLines, inBody), lines[i..])
        == LegacyRun(LegacyStart, lines)
    {
      var line := lines[i];
      assert lines[i..] == [line] + lines[i + 1..];
      var fromRest := StripPrefix(line, FromTag);
      if fromRest.Some? {
        from := fromRest.value;
        inBody := false;
        bodyLines := [];
      } else {
        var subjectRest := StripPrefix(line, SubjectTag);
        if subjectRest.Some? {
          subject := subjectRest.value;
          inBody := false;
        } else if line == BodyTag {
          inBody := true;
          bodyLines := [];
        } else if line == Separator {
          inbox := inbox + [EmailSummary(subject, from, Join(bodyLines, "\n"), None)];
          from := [];
          subject := [];
          bodyLines := [];
          inBody := false;
        } else if inBody {
          bodyLines := bodyLines + [line];
        }
      }
    }
    assert lines[|lines|..] == [];
    if !(from == [] && subject == [] && bodyLines == []) {
      inbox := inbox + [EmailSummary(subject, from, Join(bodyLines, "\n"), None)];
    }
  }

  /** The loop over two stretches of lines is the loop over the second from
      where the first left off. */
  lemma {:induction false} LegacyRunConcat(a: LegacyState, x: seq<string>, y: seq<string>)
    ensures LegacyRun(a, x + y) == LegacyRun(LegacyRun(a, x), y)
    decreases |x|
  {
    if x != [] {
      assert (x + y)[1..] == x[1..] + y;
      LegacyRunConcat(LegacyStep(a, x[0]), x[1..], y);
    } else {
      assert x + y == y;
    }
  }

  /** The line `i`, when it is `---`, appends the record of the from, subject
      and body lines collected since the previous reset, with no file path,
      and resets them. */
  lemma SeparatorRecord(lines: seq<string>, i: nat)
    requires i < |lines| && lines[i] == Separator
    ensures var b := LegacyRun(LegacyStart, lines[..i]);
      LegacyRun(LegacyStart, lines[..i + 1]) ==
        LegacyState(b.inbox + [EmailSummary(b.subject, b.from, Join(b.bodyLines, "\n"), None)],
          [], [], [], false)
  {
    assert lines[..i + 1] == lines[..i] + [lines[i]];
    LegacyRunConcat(LegacyStart, lines[..i], [lines[i]]);
  }

  /** Body lines while in body mode are collected in order. */
  lemma {:induction false} LegacyRunText(a: LegacyState, ls: seq<string>)
    requires a.inBody
    requires forall l :: l in ls ==> IsText(l) && l != Separator
    ensures LegacyRun(a, ls) == a.(bodyLines := a.bodyLines + ls)
    decreases |ls|
  {
    if ls != [] {
      assert ls[0] in ls;
      LegacyRunText(a.(bodyLines := a.bodyLines + [ls[0]]), ls[1..]);
      assert a.bodyLines + [ls[0]] + ls[1..] == a.bodyLines + ls;
    } else {
      assert a.bodyLines + ls == a.bodyLines;
    }
  }

  // ---- one record per file (mod.rs:158-203) ----

  /** The accumulators of `parse_single_email_file`. */
  datatype SingleState = SingleState(from: string, subject: string, bodyLines: seq<string>, inBody: bool)

  const SingleStart: SingleState := SingleState([], [], [], false)

  /** One turn of the loop of `parse_single_email_file`. */
  function SingleStep(a: SingleState, line: string): (r: SingleState)
    ensures FromTag <= line ==> r == a.(from := line[|FromTag|..])
    ensures SubjectTag <= line ==> r == a.(subject := line[|SubjectTag|..])
    ensures line == BodyTag ==> r == a.(inBody := true)
    ensures IsText(line) ==> r == if a.inBody then a.(bodyLines := a.bodyLines + [line]) else a
  {
    TagsDiffer(line);
    match StripPrefix(line, FromTag)
    case Some(rest) => a.(from := rest)
    case None =>
      match StripPrefix(line, SubjectTag)
      case Some(rest) => a.(subject := rest)
      case None =>
        if line == BodyTag then a.(inBody := true)
        else if a.inBody then a.(bodyLines := a.bodyLines + [line])
        else a
  }

  /** The single-file loop over `lines` from state `a`: body mode, once
      entered, is never left, and body lines are only ever appended. */
  function SingleRun(a: SingleState, lines: seq<string>): (r: SingleState)
    ensures r.inBody <==> a.inBody || BodyTag in lines
    ensures a.bodyLines <= r.bodyLines
    decreases |lines|
  {
    if lines == [] then a
    else
      var b := SingleStep(a, lines[0]);
      assert a.bodyLines <= b.bodyLines;
      assert BodyTag in lines <==> lines[0] == BodyTag || BodyTag in lines[1..];
      SingleRun(b, lines[1..])
  }

  lemma {:induction false} SingleRunSnoc(a: SingleState, x: seq<string>, l: string)
    ensures SingleRun(a, x + [l]) == SingleStep(SingleRun(a, x), l)
    decreases |x|
  {
    if x == [] {
      assert x + [l] == [l];
    } else {
      assert (x + [l])[1..] == x[1..] + [l];
      SingleRunSnoc(SingleStep(a, x[0]), x[1..], l);
    }
  }

  /** Drops the leading blank lines, those whose trim is empty
      (`body_lines.remove(0)`). */
  function DropLeadingBlank(ls: seq<string>): (r: seq<string>)
    ensures |r| <= |ls| && r == ls[|ls| - |r|..]
    ensures forall i :: 0 <= i < |ls| - |r| ==> IsBlank(ls[i])
    ensures r == [] || !IsBlank(r[0])
  {
    if ls == [] then []
    else if IsBlank(ls[0]) then
      var t := ls[1..];
      var r := DropLeadingBlank(t);
      assert t[|t| - |r|..] == ls[|ls| - |r|..];
      r
    else ls
  }

  /** Drops the trailing blank lines (`body_lines.pop()`). */
  function DropTrailingBlank(ls: seq<string>): (r: seq<string>)
    ensures |r| <= |ls| && r == ls[..|r|]
    ensures forall i :: |r| <= i < |ls| ==> IsBlank(ls[i])
    ensures r == [] || !IsBlank(r[|r| - 1])
  {
    if ls == [] then []
    else if IsBlank(ls[|ls| - 1]) then
      var r := DropTrailingBlank(ls[..|ls| - 1]);
      assert forall i :: |r| <= i < |ls| - 1 ==> ls[i] == ls[..|ls| - 1][i];
      r
    else ls
  }

  /** Both trims of the body lines: a stretch of the lines, in order and
      unchanged, with only blank lines cut before and after, and neither its
      first nor its last line blank. */
  function TrimBlankLines(ls: seq<string>): (r: seq<string>)
    ensures var i := |ls| - |DropLeadingBlank(ls)|;
      i + |r| <= |ls| && r == ls[i..i + |r|] && BlankOutside(ls, i, i + |r|)
    ensures r == [] || (!IsBlank(r[0]) && !IsBlank(r[|r| - 1]))
  {
    TrimBlankSlice(ls, DropLeadingBlank(ls), DropTrailingBlank(DropLeadingBlank(ls)));
    DropTrailingBlank(DropLeadingBlank(ls))
  }

  lemma TrimBlankSlice(ls: seq<string>, m: seq<string>, r: seq<string>)
    requires |m| <= |ls| && m == ls[|ls| - |m|..]
    requires forall k :: 0 <= k < |ls| - |m| ==> IsBlank(ls[k])
    requires m == [] || !IsBlank(m[0])
    requires |r| <= |m| && r == m[..|r|]
    requires forall k :: |r| <= k < |m| ==> IsBlank(m[k])
    requires r == [] || !IsBlank(r[|r| - 1])
    ensures var i := |ls| - |m|;
      i + |r| <= |ls| && r == ls[i..i + |r|] && BlankOutside(ls, i, i + |r|)
    ensures r == [] || (!IsBlank(r[0]) && !IsBlank(r[|r| - 1]))
  {
    var i := |ls| - |m|;
    assert m == ls[i..];
    assert r == m[..|r|];
    BlankAfterShift(ls, m, i, |r|);
    assert r == ls[i..i + |r|] by {
      assert ls[i..][..|r|] == ls[i..i + |r|];
    }
    if r != [] {
      assert r[0] == m[0];
    }
  }

  /** Every line of `ls` before `i` and from `j` on is blank. */
  predicate BlankOutside(ls: seq<string>, i: nat, j: nat)
  {
    (forall k :: 0 <= k < i && k < |ls| ==> IsBlank(ls[k]))
    && (forall k :: j <= k < |ls| ==> IsBlank(ls[k]))
  }

  lemma BlankAfterShift(ls: seq<string>, m: seq<string>, i: nat, n: nat)
    requires i <= |ls| && m == ls[i..] && n <= |m|
    requires forall k :: n <= k < |m| ==> IsBlank(m[k])
    ensures forall k :: i + n <= k < |ls| ==> IsBlank(ls[k])
  {
    forall k | i + n <= k < |ls| ensures IsBlank(ls[k]) {
      assert ls[k] == m[k - i];
    }
  }

  /** The header values: the text after the tag on the last line that has it,
      or `d` when none has. */
  function LastValue(lines: seq<string>, tag: string, d: string): string
  {
    if lines == [] then d
    else
      var l := lines[|lines| - 1];
      if tag <= l then l[|tag|..] else LastValue(lines[..|lines| - 1], tag, d)
  }

  /** The lines that `parse_single_email_file` keeps for the body: the text
      lines after the first `BODY:` line, in order. */
  function FirstBodyTag(lines: seq<string>): (k: nat)
    ensures k <= |lines| && (k < |lines| ==> lines[k] == BodyTag)
    ensures forall i :: 0 <= i < k ==> lines[i] != BodyTag
  {
    if lines == [] || lines[0] == BodyTag then 0 else 1 + FirstBodyTag(lines[1..])
  }

  function TextLines(lines: seq<string>): seq<string>
  {
    if lines == [] then []
    else (if IsText(lines[0]) then [lines[0]] else []) + TextLines(lines[1..])
  }

  function BodyCandidates(lines: seq<string>): seq<string>
  {
    var k := FirstBodyTag(lines);
    if k < |lines| then TextLines(lines[k + 1..]) else []
  }

  /** Later `FROM: ` and `SUBJECT: ` lines override earlier ones, wherever
      they are (even after `BODY:`). */
  lemma {:induction false} SingleHeaders(a: SingleState, lines: seq<string>)
    ensures SingleRun(a, lines).from == LastValue(lines, FromTag, a.from)
    ensures SingleRun(a, lines).subject == LastValue(lines, SubjectTag, a.subject)
    decreases |lines|
  {
    if lines != [] {
      var x := lines[..|lines| - 1];
      var l := lines[|lines| - 1];
      assert lines == x + [l];
      SingleRunSnoc(a, x, l);
      SingleHeaders(a, x);
    }
  }

  /** In body mode, every text line is kept, in order. */
  lemma {:induction false} SingleRunInBody(a: SingleState, lines: seq<string>)
    requires a.inBody
    ensures SingleRun(a, lines).bodyLines == a.bodyLines + TextLines(lines)
    decreases |lines|
  {
    if lines == [] {
      assert a.bodyLines + [] == a.bodyLines;
    } else {
      var l := lines[0];
      var keep := if IsText(l) then [l] else [];
      var b := SingleStep(a, l);
      assert b.inBody && b.bodyLines == a.bodyLines + keep;
      SingleRunInBody(b, lines[1..]);
      assert TextLines(lines) == keep + TextLines(lines[1..]);
      assert a.bodyLines + keep + TextLines(lines[1..]) == a.bodyLines + (keep + TextLines(lines[1..]));
    }
  }

  /** Before the first `BODY:` line nothing is kept; after it, every text line. */
  lemma {:induction false} SingleRunBody(a: SingleState, lines: seq<string>)
    requires !a.inBody
    ensures SingleRun(a, lines).bodyLines == a.bodyLines + BodyCandidates(lines)
    decreases |lines|
  {
    if lines == [] {
      assert a.bodyLines + [] == a.bodyLines;
    } else if lines[0] == BodyTag {
      SingleRunInBody(a.(inBody := true), lines[1..]);
    } else {
      var b := SingleStep(a, lines[0]);
      assert !b.inBody && b.bodyLines == a.bodyLines;
      SingleRunBody(b, lines[1..]);
      var k := FirstBodyTag(lines[1..]);
      assert FirstBodyTag(lines) == k + 1;
      if k < |lines[1..]| {
        assert lines[1..][k + 1..] == lines[k + 2..];
      }
    }
  }

  /** What `parse_single_email_file` returns for the lines of a file: the
      last `FROM: ` and `SUBJECT: ` values and the trimmed text lines after
      the first `BODY:`, with no file path. */
  function SingleEmail(lines: seq<string>): (e: EmailSummary)
    ensures e == EmailSummary(
      LastValue(lines, SubjectTag, []), LastValue(lines, FromTag, []),
      Join(TrimBlankLines(BodyCandidates(lines)), "\n"), None)
  {
    var a := SingleRun(SingleStart, lines);
    SingleHeaders(SingleStart, lines);
    SingleRunBody(SingleStart, lines);
    assert [] + BodyCandidates(lines) == BodyCandidates(lines);
    Record(a.from, a.subject, TrimBlankLines(a.bodyLines))
  }

  /** `parse_single_email_file`, past the opening of the file. */
  method ParseSingleEmail(lines: seq<string>) returns (email: EmailSummary)
    ensures email == SingleEmail(lines)
  {
    var from: string := [];
    var subject: string := [];
    var bodyLines: seq<string> := [];
    var inBody := false;
    for i := 0 to |lines|
      invariant SingleRun(SingleState(from, subject, bodyLines, inBody), lines[i..])
        == SingleRun(SingleStart, lines)
    {
      var line := lines[i];
      assert lines[i..] == [line] + lines[i + 1..];
      var fromRest := StripPrefix(line, FromTag);
      if fromRest.Some? {
        from := fromRest.value;
      } else {
        var subjectRest := StripPrefix(line, SubjectTag);
        if subjectRest.Some? {
          subject := subjectRest.value;
        } else if line == BodyTag {
          inBody := true;
        } else if inBody {
          bodyLines := bodyLines + [line];
        }
      }
    }
    assert lines[|lines|..] == [];
    ghost var collected := bodyLines;
    while |bodyLines| > 0 && Trim(bodyLines[0]) == []
      invariant DropLeadingBlank(bodyLines) == DropLeadingBlank(collected)
    {
      TrimEmptyIffBlank(bodyLines[0]);
      bodyLines := bodyLines[1..];
    }
    if |bodyLines| > 0 {
      TrimEmptyIffBlank(bodyLines[0]);
    }
    ghost var led := bodyLines;
    while |bodyLines| > 0 && Trim(bodyLines[|bodyLines| - 1]) == []
      invariant DropTrailingBlank(bodyLines) == DropTrailingBlank(led)
    {
      TrimEmptyIffBlank(bodyLines[|bodyLines| - 1]);
      bodyLines := bodyLines[..|bodyLines| - 1];
    }
    if |bodyLines| > 0 {
      TrimEmptyIffBlank(bodyLines[|bodyLines| - 1]);
    }
    email := EmailSummary(subject, from, Join(bodyLines, "\n"), None);
  }

  // ---- the record `send_email` writes (mod.rs:52-69) ----

  /** `writeln!`: the value and a line break. */
  function Line(x: string): (r: string)
    ensures |r| == |x| + 1 && r[|x|] == '\n' && r[..|x|] == x
  {
    x + "\n"
  }

  /** One `writeln!` per value, in order. */
  function Unlines(vs: seq<string>): (r: string)
    ensures vs != [] ==> |r| > 0 && r[|r| - 1] == '\n'
  {
    if vs == [] then [] else Line(vs[0]) + Unlines(vs[1..])
  }

  /** The values of the `writeln!` calls of `send_email`: the headers, the
      body, and for the legacy file the `---` line. */
  function RecordValues(user: string, to: string, subject: string, body: string, legacy: bool): (r: seq<string>)
    ensures |r| == if legacy then 6 else 5
    ensures r[0] == FromTag + user && r[1] == ToTag + to && r[2] == SubjectTag + subject
    ensures r[3] == BodyTag && r[4] == body
    ensures legacy ==> r[5] == Separator
  {
    [FromTag + user, ToTag + to, SubjectTag + subject, BodyTag, body]
      + (if legacy then [Separator] else [])
  }

  /** The text of a record written by `send_email` for `to`, `subject` and
      `body` from `user`: into a file of its own, or appended to the legacy file. */
  function RecordText(user: string, to: string, subject: string, body: string, legacy: bool): (r: string)
    ensures |r| > 0 && r[|r| - 1] == '\n'
  {
    Unlines(RecordValues(user, to, subject, body, legacy))
  }

  /** A header value reads back as written: one line, not ending in `'\r'`
      (which `lines()` would take for part of a `"\r\n"`). */
  predicate HeaderSafe(v: string)
  {
    '\n' !in v && !EndsWithCr(v)
  }

  /** Every line of the body reads back as a body line. */
  predicate BodySafe(body: string)
  {
    forall p :: p in Split(body) ==> IsText(p) && p != Separator && !EndsWithCr(p)
  }

  /** No piece of `v` ends with `'\r'`. */
  predicate CrFree(v: string)
  {
    forall p :: p in Split(v) ==> !EndsWithCr(p)
  }

  /** The pieces of every value, in order. */
  function SplitAll(vs: seq<string>): seq<string>
  {
    if vs == [] then [] else Split(vs[0]) + SplitAll(vs[1..])
  }

  /** What `writeln!` writes, `lines()` reads back piece by piece. */
  lemma {:induction false} LinesUnlines(vs: seq<string>)
    requires forall v :: v in vs ==> CrFree(v)
    ensures Lines(Unlines(vs)) == SplitAll(vs)
    decreases |vs|
  {
    if vs != [] {
      assert vs[0] in vs;
      LinesConcat(Line(vs[0]), Unlines(vs[1..]));
      LinesOfTerminated(vs[0]);
      forall v | v in vs[1..] ensures CrFree(v) {
        assert v in vs;
      }
      LinesUnlines(vs[1..]);
    }
  }

  lemma SplitOneLine(x: string)
    requires '\n' !in x
    ensures Split(x) == [x]
  {
    IndexOfNewlineAbsent(x);
  }

  /** A tag followed by a header value is one line not ending in `'\r'`. */
  lemma TaggedSafe(tag: string, v: string)
    requires HeaderSafe(v) && (tag == FromTag || tag == ToTag || tag == SubjectTag)
    ensures HeaderSafe(tag + v) && Split(tag + v) == [tag + v] && CrFree(tag + v)
  {
    assert HeaderSafe(tag);
    assert v == [] ==> tag + v == tag;
    assert v != [] ==> (tag + v)[|tag + v| - 1] == v[|v| - 1];
    SplitOneLine(tag + v);
  }

  /** Every value `send_email` writes reads back piece by piece. */
  lemma RecordValuesCrFree(user: string, to: string, subject: string, body: string, legacy: bool)
    requires HeaderSafe(user) && HeaderSafe(to) && HeaderSafe(subject) && BodySafe(body)
    ensures forall v :: v in RecordValues(user, to, subject, body, legacy) ==> CrFree(v)
  {
    TaggedSafe(FromTag, user);
    TaggedSafe(ToTag, to);
    TaggedSafe(SubjectTag, subject);
    TagsCrFree();
    var vs := RecordValues(user, to, subject, body, legacy);
    forall v | v in vs ensures CrFree(v) {
      assert v == FromTag + user || v == ToTag + to || v == SubjectTag + subject
        || v == BodyTag || v == body || v == Separator;
    }
  }

  /** The fixed lines `send_email` writes read back as themselves. */
  lemma TagsCrFree()
    ensures Split(BodyTag) == [BodyTag] && CrFree(BodyTag)
    ensures Split(Separator) == [Separator] && CrFree(Separator)
  {
    SplitOneLine(BodyTag);
    SplitOneLine(Separator);
  }

  /** The lines a record reads back as, when every value is safe. */
  function RecordLineSeq(user: string, to: string, subject: string, body: string, legacy: bool): seq<string>
  {
    [FromTag + user, ToTag + to, SubjectTag + subject, BodyTag] + Split(body)
      + (if legacy then [Separator] else [])
  }

  /** The pieces of the values `send_email` writes. */
  lemma RecordPieces(user: string, to: string, subject: string, body: string, legacy: bool)
    requires HeaderSafe(user) && HeaderSafe(to) && HeaderSafe(subject)
    ensures SplitAll(RecordValues(user, to, subject, body, legacy)) ==
      RecordLineSeq(user, to, subject, body, legacy)
  {
    var heads := [FromTag + user, ToTag + to, SubjectTag + subject, BodyTag];
    var tl: seq<string> := if legacy then [Separator] else [];
    TaggedSafe(FromTag, user);
    TaggedSafe(ToTag, to);
    TaggedSafe(SubjectTag, subject);
    assert forall v :: v in heads + tl ==> '\n' !in v;
    SplitAllSingles(heads);
    SplitAllSingles(tl);
    assert SplitAll([body]) == Split(body);
    SplitAllConcat(heads, [body]);
    SplitAllConcat(heads + [body], tl);
    assert RecordValues(user, to, subject, body, legacy) == heads + [body] + tl;
  }

  lemma {:induction false} SplitAllConcat(xs: seq<string>, ys: seq<string>)
    ensures SplitAll(xs + ys) == SplitAll(xs) + SplitAll(ys)
    decreases |xs|
  {
    if xs == [] {
      assert xs + ys == ys;
    } else {
      assert (xs + ys)[1..] == xs[1..] + ys;
      SplitAllConcat(xs[1..], ys);
    }
  }

  /** Values without a line break are one piece each. */
  lemma {:induction false} SplitAllSingles(vs: seq<string>)
    requires forall v :: v in vs ==> '\n' !in v
    ensures SplitAll(vs) == vs
    decreases |vs|
  {
    if vs != [] {
      assert vs[0] in vs;
      SplitOneLine(vs[0]);
      SplitAllSingles(vs[1..]);
      assert vs == [vs[0]] + vs[1..];
    }
  }

  /** The lines a written record reads back as: the three tagged headers,
      `BODY:`, the lines of the body, and `---` in the legacy file. */
  lemma RecordLines(user: string, to: string, subject: string, body: string, legacy: bool)
    requires HeaderSafe(user) && HeaderSafe(to) && HeaderSafe(subject) && BodySafe(body)
    ensures Lines(RecordText(user, to, subject, body, legacy)) ==
      [FromTag + user, ToTag + to, SubjectTag + subject, BodyTag] + Split(body)
      + (if legacy then [Separator] else [])
  {
    RecordValuesCrFree(user, to, subject, body, legacy);
    LinesUnlines(RecordValues(user, to, subject, body, legacy));
    RecordPieces(user, to, subject, body, legacy);
  }

  /** The four header lines of a record take the legacy loop, whatever it
      had pending, to body mode with the record's sender and subject. */
  lemma LegacyHeaders(a: LegacyState, user: string, to: string, subject: string)
    ensures LegacyRun(a, [FromTag + user, ToTag + to, SubjectTag + subject, BodyTag]) ==
      a.(from := user, subject := subject, inBody := true, bodyLines := [])
  {
    var l1, l2, l3 := FromTag + user, ToTag + to, SubjectTag + subject;
    var heads := [l1, l2, l3, BodyTag];
    assert FromTag <= l1 && l1[|FromTag|..] == user;
    var s1 := LegacyStep(a, l1);
    assert s1 == a.(from := user, inBody := false, bodyLines := []);
    assert l2[0] == 'T';
    var s2 := LegacyStep(s1, l2);
    assert s2 == s1;
    assert SubjectTag <= l3 && l3[|SubjectTag|..] == subject;
    var s3 := LegacyStep(s2, l3);
    assert s3 == s1.(subject := subject);
    var s4 := LegacyStep(s3, BodyTag);
    assert heads[1..] == [l2, l3, BodyTag];
    assert heads[1..][1..] == [l3, BodyTag];
    assert heads[1..][1..][1..] == [BodyTag];
    assert LegacyRun(s3, [BodyTag]) == s4;
    assert LegacyRun(a, heads) == LegacyRun(s1, [l2, l3, BodyTag]);
    assert LegacyRun(s1, [l2, l3, BodyTag]) == LegacyRun(s2, [l3, BodyTag]);
    assert LegacyRun(s2, [l3, BodyTag]) == LegacyRun(s3, [BodyTag]);
  }

  /** The lines of a legacy record, whatever the loop had pending, add
      exactly that record to what the loop collects. */
  lemma LegacyRecordLines(a: LegacyState, user: string, to: string, subject: string, body: string)
    requires BodySafe(body)
    ensures LegacyRun(a, RecordLineSeq(user, to, subject, body, true)) ==
      LegacyState(a.inbox + [EmailSummary(subject, user, body, None)], [], [], [], false)
  {
    var heads := [FromTag + user, ToTag + to, SubjectTag + subject, BodyTag];
    LegacyHeaders(a, user, to, subject);
    var b := a.(from := user, subject := subject, inBody := true, bodyLines := []);
    LegacyRunConcat(a, heads, Split(body) + [Separator]);
    assert heads + Split(body) + [Separator] == heads + (Split(body) + [Separator]);
    LegacyRunConcat(b, Split(body), [Separator]);
    LegacyRunText(b, Split(body));
    JoinSplit(body);
    assert [] + Split(body) == Split(body);
  }

  /** Appending a record to a legacy file, whatever the loop had pending,
      adds exactly that record, from `user`, to what the loop collects. */
  lemma LegacyRecordRoundTrip(a: LegacyState, user: string, to: string, subject: string, body: string)
    requires HeaderSafe(user) && HeaderSafe(to) && HeaderSafe(subject) && BodySafe(body)
    ensures LegacyRun(a, Lines(RecordText(user, to, subject, body, true))) ==
      LegacyState(a.inbox + [EmailSummary(subject, user, body, None)], [], [], [], false)
  {
    RecordLines(user, to, subject, body, true);
    LegacyRecordLines(a, user, to, subject, body);
  }

  /** A legacy file written record by record. */
  datatype Draft = Draft(to: string, subject: string, body: string)

  function LegacyFile(user: string, drafts: seq<Draft>): string
  {
    if drafts == [] then []
    else
      RecordText(user, drafts[0].to, drafts[0].subject, drafts[0].body, true)
      + LegacyFile(user, drafts[1..])
  }

  predicate DraftSafe(d: Draft)
  {
    HeaderSafe(d.to) && HeaderSafe(d.subject) && BodySafe(d.body)
  }

  /** The lines of a legacy file, record after record. */
  function LegacyFileLines(user: string, drafts: seq<Draft>): seq<string>
  {
    if drafts == [] then []
    else
      RecordLineSeq(user, drafts[0].to, drafts[0].subject, drafts[0].body, true)
      + LegacyFileLines(user, drafts[1..])
  }

  lemma {:induction false} LinesOfLegacyFile(user: string, drafts: seq<Draft>)
    requires HeaderSafe(user) && forall d :: d in drafts ==> DraftSafe(d)
    ensures Lines(LegacyFile(user, drafts)) == LegacyFileLines(user, drafts)
    decreases |drafts|
  {
    if drafts != [] {
      var d := drafts[0];
      assert d in drafts;
      var x := RecordText(user, d.to, d.subject, d.body, true);
      LinesConcat(x, LegacyFile(user, drafts[1..]));
      RecordLines(user, d.to, d.subject, d.body, true);
      forall e | e in drafts[1..] ensures DraftSafe(e) {
        assert e in drafts;
      }
      LinesOfLegacyFile(user, drafts[1..]);
    }
  }

  lemma LegacyRecordThen(a: LegacyState, user: string, d: Draft, y: seq<string>)
    requires BodySafe(d.body)
    ensures LegacyRun(a, RecordLineSeq(user, d.to, d.subject, d.body, true) + y) ==
      LegacyRun(LegacyState(a.inbox + [EmailSummary(d.subject, user, d.body, None)], [], [], [], false), y)
  {
    LegacyRunConcat(a, RecordLineSeq(user, d.to, d.subject, d.body, true), y);
    LegacyRecordLines(a, user, d.to, d.subject, d.body);
  }

  /** The records of `drafts` as sent by `user`; `send_email` stores no file path. */
  function Sent(user: string, drafts: seq<Draft>): (r: seq<EmailSummary>)
    ensures |r| == |drafts|
    ensures forall i :: 0 <= i < |drafts| ==>
      r[i] == EmailSummary(drafts[i].subject, user, drafts[i].body, None)
  {
    if drafts == [] then []
    else [EmailSummary(drafts[0].subject, user, drafts[0].body, None)] + Sent(user, drafts[1..])
  }

  lemma {:induction false} LegacyRunFileLines(a: LegacyState, user: string, drafts: seq<Draft>)
    requires forall d :: d in drafts ==> BodySafe(d.body)
    ensures LegacyRun(a, LegacyFileLines(user, drafts)) ==
      if drafts == [] then a else LegacyState(a.inbox + Sent(user, drafts), [], [], [], false)
    decreases |drafts|
  {
    if drafts != [] {
      var d, more := drafts[0], drafts[1..];
      assert d in drafts;
      var e := EmailSummary(d.subject, user, d.body, None);
      var b := LegacyState(a.inbox + [e], [], [], [], false);
      LegacyRecordThen(a, user, d, LegacyFileLines(user, more));
      forall x | x in more ensures BodySafe(x.body) {
        assert x in drafts;
      }
      LegacyRunFileLines(b, user, more);
      assert Sent(user, drafts) == [e] + Sent(user, more);
      if more == [] {
        assert Sent(user, drafts) == [e];
      } else {
        SeqAssoc(a.inbox, [e], Sent(user, more));
      }
    }
  }

  /** Reading a legacy file written by `send_email` gives back every record in
      the order written, each from `user`, with nothing pending at the end. */
  lemma LegacyFileRoundTrip(a: LegacyState, user: string, drafts: seq<Draft>)
    requires HeaderSafe(user) && forall d :: d in drafts ==> DraftSafe(d)
    ensures LegacyRun(a, Lines(LegacyFile(user, drafts))) ==
      if drafts == [] then a else LegacyState(a.inbox + Sent(user, drafts), [], [], [], false)
  {
    LinesOfLegacyFile(user, drafts);
    LegacyRunFileLines(a, user, drafts);
  }

  /** So `fetch_inbox` on such a file returns exactly the records written. */
  lemma LegacyInboxRoundTrip(user: string, drafts: seq<Draft>)
    requires HeaderSafe(user) && forall d :: d in drafts ==> DraftSafe(d)
    ensures LegacyInbox(Lines(LegacyFile(user, drafts))) == Sent(user, drafts)
  {
    LegacyFileRoundTrip(LegacyStart, user, drafts);
  }

  /** A record written into a file of its own reads back with the same
      sender and subject and the body less its blank first and last lines. */
  lemma SingleRecordRoundTrip(user: string, to: string, subject: string, body: string)
    requires HeaderSafe(user) && HeaderSafe(to) && HeaderSafe(subject) && BodySafe(body)
    ensures SingleEmail(Lines(RecordText(user, to, subject, body, false))) ==
      EmailSummary(subject, user, Join(TrimBlankLines(Split(body)), "\n"), None)
  {
    RecordLines(user, to, subject, body, false);
    SingleRecordLines(user, to, subject, body);
  }

  /** The lines of a one-record file give back its sender, its subject and
      the text lines of its body. */
  lemma SingleRecordLines(user: string, to: string, subject: string, body: string)
    requires BodySafe(body)
    ensures SingleEmail(RecordLineSeq(user, to, subject, body, false)) ==
      EmailSummary(subject, user, Join(TrimBlankLines(Split(body)), "\n"), None)
  {
    var heads := [FromTag + user, ToTag + to, SubjectTag + subject, BodyTag];
    assert heads[0][0] == 'F' && heads[1][0] == 'T' && heads[2][0] == 'S' && BodyTag[0] == 'B';
    assert forall i :: 0 <= i < 3 ==> heads[i] != BodyTag;
    SingleEmailHeadsBody(RecordLineSeq(user, to, subject, body, false), heads, Split(body));
    HeaderValues(user, to, subject);
  }

  /** Header lines up to a first `BODY:`, then text lines: the record has the
      last header values and the trimmed text lines. */
  lemma SingleEmailHeadsBody(ls: seq<string>, heads: seq<string>, rest: seq<string>)
    requires ls == heads + rest
    requires |heads| > 0 && heads[|heads| - 1] == BodyTag
    requires forall i :: 0 <= i < |heads| - 1 ==> heads[i] != BodyTag
    requires forall l :: l in rest ==> IsText(l)
    ensures SingleEmail(ls) == EmailSummary(LastValue(heads, SubjectTag, []),
      LastValue(heads, FromTag, []), Join(TrimBlankLines(rest), "\n"), None)
  {
    assert FirstBodyTag(ls) == |heads| - 1 by {
      FirstBodyTagPrefix(heads, rest);
    }
    assert ls[|heads|..] == rest;
    TextLinesAll(rest);
    ForeignLastValue(heads, rest, FromTag, []);
    ForeignLastValue(heads, rest, SubjectTag, []);
  }

  lemma {:induction false} FirstBodyTagPrefix(heads: seq<string>, rest: seq<string>)
    requires |heads| > 0 && heads[|heads| - 1] == BodyTag
    requires forall i :: 0 <= i < |heads| - 1 ==> heads[i] != BodyTag
    ensures FirstBodyTag(heads + rest) == |heads| - 1
    decreases |heads|
  {
    if |heads| > 1 {
      assert (heads + rest)[1..] == heads[1..] + rest;
      FirstBodyTagPrefix(heads[1..], rest);
    }
  }

  /** The last `FROM: ` and `SUBJECT: ` values of the header lines. */
  lemma HeaderValues(user: string, to: string, subject: string)
    ensures var heads := [FromTag + user, ToTag + to, SubjectTag + subject, BodyTag];
      LastValue(heads, FromTag, []) == user && LastValue(heads, SubjectTag, []) == subject
  {
    var l1, l2, l3 := FromTag + user, ToTag + to, SubjectTag + subject;
    var heads := [l1, l2, l3, BodyTag];
    assert l2[0] == 'T' && l3[0] == 'S';
    assert l1[|FromTag|..] == user;
    assert l3[|SubjectTag|..] == subject;
    var h3, h2, h1 := [l1, l2, l3], [l1, l2], [l1];
    assert heads[..3] == h3 && h3[..2] == h2 && h2[..1] == h1 && h1[..0] == [];
    assert !(FromTag <= BodyTag) && !(SubjectTag <= BodyTag);
    assert !(FromTag <= l3) && !(FromTag <= l2) && FromTag <= l1 && SubjectTag <= l3;
    assert LastValue(h1, FromTag, []) == user;
    assert LastValue(h2, FromTag, []) == user;
    assert LastValue(h3, FromTag, []) == user;
    assert LastValue(h3, SubjectTag, []) == subject;
  }

  lemma {:induction false} TextLinesAll(ls: seq<string>)
    requires forall l :: l in ls ==> IsText(l)
    ensures TextLines(ls) == ls
    decreases |ls|
  {
    if ls != [] {
      assert ls[0] in ls;
      TextLinesAll(ls[1..]);
    }
  }

  /** Lines that are text lines do not count as headers. */
  lemma {:induction false} ForeignLastValue(x: seq<string>, y: seq<string>, tag: string, d: string)
    requires forall l :: l in y ==> IsText(l)
    requires tag == FromTag || tag == SubjectTag
    ensures LastValue(x + y, tag, d) == LastValue(x, tag, d)
    decreases |y|
  {
    if y != [] {
      var l := y[|y| - 1];
      assert l in y;
      assert (x + y)[..|x + y| - 1] == x + y[..|y| - 1];
      ForeignLastValue(x, y[..|y| - 1], tag, d);
    } else {
      assert x + y == x;
    }
  }
}
