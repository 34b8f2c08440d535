/**
  The parts of Rust's `char` and `str` that the mail client relies on,
  stated over `seq<char>`: UTF-8 byte lengths and char boundaries,
  `char::is_whitespace`, `str::trim`, `str::lines` and `[String]::join`.
  A Rust `String` is modelled by its sequence of chars; byte offsets are
  computed from it with `ByteLen` and never stored as bytes.
*/
module Str {

  datatype Option<T> = None | Some(value: T)

  /** `char::len_utf8`: the number of bytes `c` takes in UTF-8. */
  function Utf8Len(c: char): (n: nat)
    ensures 1 <= n <= 4
    ensures n == 1 <==> c as int < 0x80
  {
    if c as int < 0x80 then 1
    else if c as int < 0x800 then 2
    else if c as int < 0x1_0000 then 3
    else 4
  }

  /** `str::len`: the length of `s` in bytes. */
  function ByteLen(s: string): nat
  {
    if s == [] then 0 else Utf8Len(s[0]) + ByteLen(s[1..])
  }

  /** A string takes at least one and at most four bytes per char. */
  lemma {:induction false} ByteLenBounds(s: string)
    ensures |s| <= ByteLen(s) <= 4 * |s|
  {
    if s != [] {
      ByteLenBounds(s[1..]);
    }
  }

  lemma {:induction false} ByteLenConcat(a: string, b: string)
    ensures ByteLen(a + b) == ByteLen(a) + ByteLen(b)
  {
    if a == [] {
      assert a + b == b;
    } else {
      assert (a + b)[1..] == a[1..] + b;
      ByteLenConcat(a[1..], b);
    }
  }

  lemma ByteLenPrefixStep(s: string, k: nat)
    requires k < |s|
    ensures ByteLen(s[..k + 1]) == ByteLen(s[..k]) + Utf8Len(s[k])
  {
    assert s[..k + 1] == s[..k] + [s[k]];
    ByteLenConcat(s[..k], [s[k]]);
  }

  /** Every extra char of a prefix adds at least one byte. */
  lemma {:induction false} ByteLenPrefixGrows(s: string, i: nat, j: nat)
    requires i <= j <= |s|
    ensures ByteLen(s[..i]) + (j - i) <= ByteLen(s[..j])
  {
    if i < j {
      ByteLenPrefixGrows(s, i, j - 1);
      ByteLenPrefixStep(s, j - 1);
    }
  }

  /** Two prefixes with the same byte length are the same prefix. */
  lemma ByteLenPrefixInjective(s: string, i: nat, j: nat)
    requires i <= |s| && j <= |s|
    requires ByteLen(s[..i]) == ByteLen(s[..j])
    ensures i == j
  {
    if i < j {
      ByteLenPrefixGrows(s, i, j);
    } else if j < i {
      ByteLenPrefixGrows(s, j, i);
    }
  }

  lemma ByteLenWhole(s: string)
    ensures ByteLen(s[..|s|]) == ByteLen(s)
  {
    assert s[..|s|] == s;
  }

  /** `str::is_char_boundary`: `b` is the byte length of some prefix of `s`. */
  predicate IsCharBoundary(s: string, b: nat)
  {
    exists k :: 0 <= k <= |s| && ByteLen(s[..k]) == b
  }

  lemma BoundaryAtPrefix(s: string, k: nat)
    requires k <= |s|
    ensures IsCharBoundary(s, ByteLen(s[..k]))
  {
  }

  lemma BoundaryAtEnds(s: string)
    ensures IsCharBoundary(s, 0) && IsCharBoundary(s, ByteLen(s))
  {
    assert ByteLen(s[..0]) == 0 by { assert s[..0] == []; }
    BoundaryAtPrefix(s, 0);
    ByteLenWhole(s);
    BoundaryAtPrefix(s, |s|);
  }

  /** A boundary lies inside the string. */
  lemma BoundaryWithin(s: string, b: nat)
    requires IsCharBoundary(s, b)
    ensures b <= ByteLen(s)
  {
    var k :| 0 <= k <= |s| && ByteLen(s[..k]) == b;
    ByteLenPrefixGrows(s, k, |s|);
    ByteLenWhole(s);
  }

  /** A non-zero boundary of `s` is, less the first char, a boundary of its tail. */
  lemma BoundaryTail(s: string, b: nat)
    requires IsCharBoundary(s, b) && b > 0
    ensures |s| > 0 && Utf8Len(s[0]) <= b && IsCharBoundary(s[1..], b - Utf8Len(s[0]))
  {
    var k :| 0 <= k <= |s| && ByteLen(s[..k]) == b;
    assert k != 0 by { assert s[..0] == []; }
    assert s[..k][1..] == s[1..][..k - 1];
    assert ByteLen(s[1..][..k - 1]) == b - Utf8Len(s[0]);
  }

  /** `s[..b].chars().count()` for a boundary `b`: the chars that lie before byte `b`. */
  function CharsBefore(s: string, b: nat): (k: nat)
    requires IsCharBoundary(s, b)
    ensures k <= |s| && ByteLen(s[..k]) == b
  {
    if b == 0 then
      assert s[..0] == [];
      0
    else
      BoundaryTail(s, b);
      var k1 := CharsBefore(s[1..], b - Utf8Len(s[0]));
      assert s[..k1 + 1][1..] == s[1..][..k1];
      k1 + 1
  }

  /** `String::insert(b, ch)`; Rust panics unless `b` is a boundary. */
  function InsertAt(s: string, b: nat, ch: char): (r: string)
    requires IsCharBoundary(s, b)
    ensures ByteLen(r) == ByteLen(s) + Utf8Len(ch)
    ensures IsCharBoundary(r, b) && IsCharBoundary(r, b + Utf8Len(ch))
  {
    var k := CharsBefore(s, b);
    var r := s[..k] + [ch] + s[k..];
    assert s == s[..k] + s[k..];
    ByteLenConcat(s[..k], s[k..]);
    ByteLenConcat(s[..k] + [ch], s[k..]);
    ByteLenConcat(s[..k], [ch]);
    assert r[..k] == s[..k];
    assert r[..k + 1] == s[..k] + [ch];
    BoundaryAtPrefix(r, k);
    BoundaryAtPrefix(r, k + 1);
    r
  }

  /** The string and the char left by `String::remove(b)`; Rust panics unless
      `b` is a boundary before the end of the string. */
  function RemoveAt(s: string, b: nat): (r: (string, char))
    requires IsCharBoundary(s, b) && b < ByteLen(s)
    ensures b + Utf8Len(r.1) <= ByteLen(s)
    ensures ByteLen(r.0) == ByteLen(s) - Utf8Len(r.1)
    ensures IsCharBoundary(r.0, b)
  {
    var k := CharsBefore(s, b);
    assert k < |s| by { ByteLenWhole(s); }
    var r := s[..k] + s[k + 1..];
    assert s == s[..k] + [s[k]] + s[k + 1..];
    ByteLenConcat(s[..k] + [s[k]], s[k + 1..]);
    ByteLenConcat(s[..k], [s[k]]);
    ByteLenConcat(s[..k], s[k + 1..]);
    assert r[..k] == s[..k];
    BoundaryAtPrefix(r, k);
    (r, s[k])
  }

  /** `String::drain(b..e)`; Rust panics unless `b <= e` are both boundaries. */
  function Drain(s: string, b: nat, e: nat): (r: string)
    requires b <= e && IsCharBoundary(s, b) && IsCharBoundary(s, e)
    ensures e <= ByteLen(s) && ByteLen(r) == ByteLen(s) - (e - b)
    ensures IsCharBoundary(r, b)
  {
    var kb := CharsBefore(s, b);
    var ke := CharsBefore(s, e);
    assert kb <= ke by {
      if ke < kb { ByteLenPrefixGrows(s, ke, kb); }
    }
    BoundaryWithin(s, e);
    var r := s[..kb] + s[ke..];
    assert s[..ke] == s[..kb] + s[kb..ke];
    ByteLenConcat(s[..kb], s[kb..ke]);
    assert s == s[..ke] + s[ke..];
    ByteLenConcat(s[..ke], s[ke..]);
    ByteLenConcat(s[..kb], s[ke..]);
    assert r[..kb] == s[..kb];
    BoundaryAtPrefix(r, kb);
    r
  }

  /** Every char of `s` takes one byte. */
  predicate IsAscii(s: string)
  {
    forall i :: 0 <= i < |s| ==> (s[i] as int) < 0x80
  }

  /** In an ASCII string bytes and chars coincide. */
  lemma {:induction false} AsciiByteLen(s: string)
    requires IsAscii(s)
    ensures ByteLen(s) == |s|
    ensures forall b :: 0 <= b <= |s| ==> IsCharBoundary(s, b) && CharsBefore(s, b) == b
  {
    if s != [] {
      AsciiByteLen(s[1..]);
    }
    forall b | 0 <= b <= |s| ensures IsCharBoundary(s, b) && CharsBefore(s, b) == b {
      assert IsAscii(s[..b]);
      AsciiPrefix(s, b);
      BoundaryAtPrefix(s, b);
      ByteLenPrefixInjective(s, b, CharsBefore(s, b));
    }
  }

  lemma {:induction false} AsciiPrefix(s: string, b: nat)
    requires b <= |s| && IsAscii(s)
    ensures ByteLen(s[..b]) == b
  {
    if b > 0 {
      AsciiPrefix(s, b - 1);
      ByteLenPrefixStep(s, b - 1);
    } else {
      assert s[..0] == [];
    }
  }

  /** `String::remove(b)` undoes `String::insert(b, ch)`. */
  lemma InsertThenRemove(s: string, b: nat, ch: char)
    requires IsCharBoundary(s, b)
    ensures b < ByteLen(InsertAt(s, b, ch))
    ensures RemoveAt(InsertAt(s, b, ch), b) == (s, ch)
  {
    var k := CharsBefore(s, b);
    var r := InsertAt(s, b, ch);
    assert r == s[..k] + [ch] + s[k..];
    assert r[..k] == s[..k];
    BoundaryWithin(s, b);
    var k' := CharsBefore(r, b);
    ByteLenPrefixInjective(r, k, k');
    assert r[..k] + r[k + 1..] == s;
  }

  /** After inserting a multi-byte char, the byte just before its end is not
      a char boundary. */
  lemma InsertWideInterior(s: string, b: nat, ch: char)
    requires IsCharBoundary(s, b) && Utf8Len(ch) > 1
    ensures !IsCharBoundary(InsertAt(s, b, ch), b + Utf8Len(ch) - 1)
  {
    var k := CharsBefore(s, b);
    var r := InsertAt(s, b, ch);
    assert r == s[..k] + [ch] + s[k..];
    assert r[..k] == s[..k];
    assert r[..k + 1] == s[..k] + [ch];
    ByteLenConcat(s[..k], [ch]);
    forall m | 0 <= m <= |r| ensures ByteLen(r[..m]) != b + Utf8Len(ch) - 1 {
      if m <= k {
        ByteLenPrefixGrows(r, m, k);
      } else {
        ByteLenPrefixGrows(r, k + 1, m);
      }
    }
  }

  /** `char::is_whitespace`: the Unicode White_Space property (25 code points). */
  predicate IsWhitespace(c: char)
    ensures c as int < 0x80 ==> (IsWhitespace(c) <==> c in " \t\n\r\U{0B}\U{0C}")
  {
    var n := c as int;
    (0x09 <= n <= 0x0D) || n == 0x20 || n == 0x85 || n == 0xA0 || n == 0x1680
    || (0x2000 <= n <= 0x200A) || n == 0x2028 || n == 0x2029 || n == 0x202F
    || n == 0x205F || n == 0x3000
  }

  lemma AsciiWhitespace()
    ensures IsWhitespace(' ') && IsWhitespace('\t') && IsWhitespace('\n')
    ensures IsWhitespace('\r') && IsWhitespace('\U{0B}') && IsWhitespace('\U{0C}')
  {
  }

  /** Every char of `s` is whitespace. */
  predicate IsBlank(s: string)
  {
    forall i :: 0 <= i < |s| ==> IsWhitespace(s[i])
  }

  lemma BlankCons(c: char, t: string)
    requires IsWhitespace(c) && IsBlank(t)
    ensures IsBlank([c] + t)
  {
    assert forall i :: 0 < i <= |t| ==> ([c] + t)[i] == t[i - 1];
  }

  lemma BlankSnoc(t: string, c: char)
    requires IsBlank(t) && IsWhitespace(c)
    ensures IsBlank(t + [c])
  {
    assert forall i :: 0 <= i < |t| ==> (t + [c])[i] == t[i];
  }

  /** `str::trim_start`: `s` less its leading whitespace. */
  function TrimStart(s: string): (r: string)
    ensures |r| <= |s| && r == s[|s| - |r|..]
    ensures IsBlank(s[..|s| - |r|])
    ensures r == [] || !IsWhitespace(r[0])
  {
    var n := LeadingBlank(s);
    assert |s[n..]| == |s| - n;
    s[n..]
  }

  /** How many whitespace chars `s` starts with. */
  function LeadingBlank(s: string): (n: nat)
    ensures n <= |s| && IsBlank(s[..n])
    ensures n < |s| ==> !IsWhitespace(s[n])
  {
    if s != [] && IsWhitespace(s[0]) then
      var n := LeadingBlank(s[1..]);
      assert s[..n + 1] == [s[0]] + s[1..][..n];
      BlankCons(s[0], s[1..][..n]);
      n + 1
    else
      0
  }

  /** `str::trim_end`: `s` less its trailing whitespace. */
  function TrimEnd(s: string): (r: string)
    ensures |r| <= |s| && r == s[..|r|]
    ensures IsBlank(s[|r|..])
    ensures r == [] || !IsWhitespace(r[|r| - 1])
  {
    if s != [] && IsWhitespace(s[|s| - 1]) then
      var r := TrimEnd(s[..|s| - 1]);
      assert s[|r|..] == s[..|s| - 1][|r|..] + [s[|s| - 1]];
      BlankSnoc(s[..|s| - 1][|r|..], s[|s| - 1]);
      r
    else
      s
  }

  /** `str::trim`: the slice of `s` after its whitespace prefix and before
      its whitespace suffix. */
  function Trim(s: string): (r: string)
    ensures var n := LeadingBlank(s);
      n + |r| <= |s| && r == s[n..n + |r|] && IsBlank(s[..n]) && IsBlank(s[n + |r|..])
    ensures r == [] || (!IsWhitespace(r[0]) && !IsWhitespace(r[|r| - 1]))
  {
    var t := TrimStart(s);
    var r := TrimEnd(t);
    var n := LeadingBlank(s);
    assert t == s[n..];
    assert s[n + |r|..] == t[|r|..];
    r
  }

  /** `s.trim().is_empty()` exactly when every char of `s` is whitespace. */
  lemma TrimEmptyIffBlank(s: string)
    ensures Trim(s) == [] <==> IsBlank(s)
  {
    var t := TrimStart(s);
    if t == [] {
      assert s[..|s| - |t|] == s;
    } else {
      var u := TrimEnd(t);
      assert u == [] ==> IsBlank(t) by { assert u == [] ==> t[|u|..] == t; }
      assert !IsWhitespace(t[0]);
      assert !IsWhitespace(s[|s| - |t|]);
    }
  }

  /** The index of the first `'\n'` of `s`, or `|s|` when there is none. */
  function IndexOfNewline(s: string): (i: nat)
    ensures i <= |s|
    ensures i < |s| ==> s[i] == '\n'
  {
    if s == [] || s[0] == '\n' then 0 else 1 + IndexOfNewline(s[1..])
  }

  /** No line break comes before the first one. */
  lemma {:induction false} IndexOfNewlineFirst(s: string)
    ensures forall j :: 0 <= j < IndexOfNewline(s) ==> s[j] != '\n'
    decreases |s|
  {
    if s != [] && s[0] != '\n' {
      IndexOfNewlineFirst(s[1..]);
    }
  }

  /** A line break at `j` puts the first one at or before `j`. */
  lemma {:induction false} IndexOfNewlineAtMost(s: string, j: nat)
    requires j < |s| && s[j] == '\n'
    ensures IndexOfNewline(s) <= j
    decreases j
  {
    if s[0] != '\n' {
      IndexOfNewlineAtMost(s[1..], j - 1);
    }
  }

  /** With no line break, the first one is "at the end". */
  lemma {:induction false} IndexOfNewlineAbsent(s: string)
    requires '\n' !in s
    ensures IndexOfNewline(s) == |s|
    decreases |s|
  {
    if s != [] {
      assert s[0] != '\n' && '\n' !in s[1..];
      IndexOfNewlineAbsent(s[1..]);
    }
  }

  lemma {:induction false} IndexOfNewlineConcat(x: string, y: string)
    requires IndexOfNewline(x) < |x|
    ensures IndexOfNewline(x + y) == IndexOfNewline(x)
    decreases |x|
  {
    if x[0] != '\n' {
      assert (x + y)[1..] == x[1..] + y;
      IndexOfNewlineConcat(x[1..], y);
    }
  }

  lemma {:induction false} IndexOfNewlineNone(x: string, y: string)
    requires IndexOfNewline(x) == |x| && y != [] && y[0] == '\n'
    ensures IndexOfNewline(x + y) == |x|
    decreases |x|
  {
    if x == [] {
      assert x + y == y;
    } else {
      assert (x + y)[1..] == x[1..] + y;
      IndexOfNewlineNone(x[1..], y);
    }
  }

  predicate EndsWithCr(t: string)
  {
    |t| > 0 && t[|t| - 1] == '\r'
  }

  /** Drops the `'\r'` of a `"\r\n"` line ending. */
  function StripCr(t: string): string
  {
    if EndsWithCr(t) then t[..|t| - 1] else t
  }

  /** `str::lines` (and `BufRead::lines`): the pieces between `'\n'`s, less a
      `'\r'` right before a `'\n'`; a final `'\n'` opens no further line. */
  function Lines(s: string): seq<string>
    decreases |s|
  {
    if s == [] then []
    else
      var i := IndexOfNewline(s);
      if i == |s| then [s] else [StripCr(s[..i])] + Lines(s[i + 1..])
  }

  /** A text has no lines exactly when it is empty, and no line holds a
      newline. */
  lemma {:induction false} LinesNoNewline(s: string)
    ensures Lines(s) == [] <==> s == []
    ensures forall l :: l in Lines(s) ==> '\n' !in l
    decreases |s|
  {
    if s != [] {
      var i := IndexOfNewline(s);
      IndexOfNewlineFirst(s);
      assert '\n' !in s[..i];
      assert StripCr(s[..i]) <= s[..i];
      if i < |s| {
        LinesNoNewline(s[i + 1..]);
      }
    }
  }

  /** `str::split('\n')`: all pieces between `'\n'`s, including a last empty one. */
  function Split(s: string): (r: seq<string>)
    decreases |s|
    ensures |r| > 0
    ensures forall p :: p in r ==> '\n' !in p
  {
    var i := IndexOfNewline(s);
    IndexOfNewlineFirst(s);
    assert '\n' !in s[..i];
    if i == |s| then [s] else [s[..i]] + Split(s[i + 1..])
  }

  /** `[String]::join(sep)`. */
  function Join(ls: seq<string>, sep: string): string
  {
    if |ls| == 0 then []
    else if |ls| == 1 then ls[0]
    else ls[0] + sep + Join(ls[1..], sep)
  }

  /** Splitting pieces joined with newlines gives the pieces back when none
      holds a newline. */
  lemma {:induction false} SplitJoin(ls: seq<string>)
    requires |ls| > 0 && forall p :: p in ls ==> '\n' !in p
    ensures Split(Join(ls, "\n")) == ls
  {
    IndexOfNewlineAbsent(ls[0]);
    if |ls| > 1 {
      var rest := Join(ls[1..], "\n");
      var x := ls[0] + "\n" + rest;
      assert x == ls[0] + ("\n" + rest);
      IndexOfNewlineNone(ls[0], "\n" + rest);
      assert x[..|ls[0]|] == ls[0] && x[|ls[0]| + 1..] == rest;
      assert forall p :: p in ls[1..] ==> p in ls;
      SplitJoin(ls[1..]);
      assert ls == [ls[0]] + ls[1..];
    }
  }

  /** Joining the pieces of a split gives the string back. */
  lemma {:induction false} JoinSplit(s: string)
    ensures Join(Split(s), "\n") == s
    decreases |s|
  {
    var i := IndexOfNewline(s);
    if i < |s| {
      JoinSplit(s[i + 1..]);
      assert s == s[..i] + "\n" + s[i + 1..];
    }
  }

  /** Slicing a concatenation within its first part. */
  lemma SliceConcat(x: string, y: string, k: nat)
    requires k <= |x|
    ensures (x + y)[..k] == x[..k] && (x + y)[k..] == x[k..] + y
  {
    assert |(x + y)[k..]| == |x[k..] + y|;
    forall j | 0 <= j < |x[k..] + y| ensures (x + y)[k..][j] == (x[k..] + y)[j] {
      if j < |x| - k {
        assert (x + y)[k + j] == x[k + j];
      } else {
        assert (x + y)[k + j] == y[j - (|x| - k)];
      }
    }
  }

  /** A text that ends with a line break splits into its own lines followed by the next text's. */
  lemma {:induction false} LinesConcat(x: string, y: string)
    requires x == [] || x[|x| - 1] == '\n'
    ensures Lines(x + y) == Lines(x) + Lines(y)
    decreases |x|
  {
    if x == [] {
      assert x + y == y;
    } else {
      var i := IndexOfNewline(x);
      IndexOfNewlineAtMost(x, |x| - 1);
      var head, tail := StripCr(x[..i]), x[i + 1..];
      IndexOfNewlineConcat(x, y);
      SliceConcat(x, y, i);
      SliceConcat(x, y, i + 1);
      assert tail == [] || tail[|tail| - 1] == x[|x| - 1];
      LinesConcat(tail, y);
      LinesAt(x + y, i);
      LinesAt(x, i);
      SeqAssoc([head], Lines(tail), Lines(y));
    }
  }

  /** A text around its `i`-th character. */
  lemma SliceAround(s: string, i: nat)
    requires i < |s|
    ensures s == s[..i] + [s[i]] + s[i + 1..]
  {
  }

  /** `Lines` of a text with no line break. */
  lemma LinesWhole(s: string)
    requires s != [] && IndexOfNewline(s) == |s|
    ensures Lines(s) == [s]
  {
  }

  /** `Lines` past its first line break. */
  lemma LinesAt(s: string, i: nat)
    requires i < |s| && IndexOfNewline(s) == i
    ensures Lines(s) == [StripCr(s[..i])] + Lines(s[i + 1..])
  {
  }

  lemma SeqAssoc<T>(a: seq<T>, b: seq<T>, c: seq<T>)
    ensures a + (b + c) == a + b + c
  {
  }

  /** `writeln!` of one value `x` reads back as the pieces of `x`, provided
      none of them ends with `'\r'`. */
  lemma {:induction false} LinesOfTerminated(x: string)
    requires forall p :: p in Split(x) ==> !EndsWithCr(p)
    ensures Lines(x + "\n") == Split(x)
    decreases |x|
  {
    var i := IndexOfNewline(x);
    if i == |x| {
      IndexOfNewlineNone(x, "\n");
      assert (x + "\n")[..|x|] == x;
      assert (x + "\n")[|x| + 1..] == [];
      assert x in Split(x);
    } else {
      IndexOfNewlineConcat(x, "\n");
      assert (x + "\n")[..i] == x[..i];
      assert (x + "\n")[i + 1..] == x[i + 1..] + "\n";
      assert x[..i] in Split(x);
      forall p | p in Split(x[i + 1..]) ensures !EndsWithCr(p) {
        assert p in Split(x);
      }
      LinesOfTerminated(x[i + 1..]);
    }
  }
}
