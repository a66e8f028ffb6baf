/**
 Line/column addressing over the logical content of the buffer.

 A coordinate is a (line, column) pair. Line = the number of '\n' bytes
 before the offset, column = the number of bytes since the last '\n'.
 Coordinates are never stored; they are found by scanning.
 */
module Lines {

  datatype Pos = Pos(line: nat, column: nat)

  /** Strict lexicographic order on (line, column). */
  predicate Before(a: Pos, b: Pos) {
    a.line < b.line || (a.line == b.line && a.column < b.column)
  }

  /** Three-way comparison of two positions: 1, 0 or -1. */
  function LineCmp(line1: nat, column1: nat, line2: nat, column2: nat): (r: int)
    ensures -1 <= r <= 1
    ensures r == 0 <==> Pos(line1, column1) == Pos(line2, column2)
    ensures r < 0 <==> Before(Pos(line1, column1), Pos(line2, column2))
    ensures r > 0 <==> Before(Pos(line2, column2), Pos(line1, column1))
  {
    if line1 > line2 then 1
    else if line1 < line2 then -1
    else if column1 > column2 then 1
    else if column1 < column2 then -1
    else 0
  }

  /** line_cmp's result as a target whose plain `char` is unsigned stores
      it: -1 becomes 255, so no result is ever below 0. */
  function LineCmpUnsignedChar(line1: nat, column1: nat, line2: nat, column2: nat): (r: nat)
    ensures r == 0 || r == 1 || r == 255
    ensures r == 0 <==> Pos(line1, column1) == Pos(line2, column2)
    ensures r == 255 <==> Before(Pos(line1, column1), Pos(line2, column2))
    ensures r == 1 <==> Before(Pos(line2, column2), Pos(line1, column1))
  {
    LineCmp(line1, column1, line2, column2) % 256
  }

  /** Swapping the arguments negates the comparison. */
  lemma LineCmpAntisymmetric(line1: nat, column1: nat, line2: nat, column2: nat)
    ensures LineCmp(line1, column1, line2, column2) == -LineCmp(line2, column2, line1, column1)
  {
  }

  /** `Before` is a strict total order. */
  lemma BeforeIsStrictTotalOrder(a: Pos, b: Pos, c: Pos)
    ensures !Before(a, a)
    ensures Before(a, b) ==> !Before(b, a)
    ensures Before(a, b) && Before(b, c) ==> Before(a, c)
    ensures a == b || Before(a, b) || Before(b, a)
  {
  }

  /** Number of '\n' bytes in a byte sequence. */
  function Newlines(t: seq<char>): nat {
    multiset(t)['\n']
  }

  /** The coordinate update the scans apply after reading byte `c`. */
  function Advance(v: Pos, c: char): (w: Pos)
    ensures Before(v, w)
    ensures c == '\n' ==> w == Pos(v.line + 1, 0)
    ensures c != '\n' ==> w == Pos(v.line, v.column + 1)
  {
    if c == '\n' then Pos(v.line + 1, 0) else Pos(v.line, v.column + 1)
  }

  /** Coordinate of offset `i` (i == |s| names the end of the content). */
  function CoordAt(s: seq<char>, i: nat): (v: Pos)
    requires i <= |s|
    ensures v.column == 0 <==> (i == 0 || s[i - 1] == '\n')
    ensures v.column <= i
  {
    if i == 0 then Pos(0, 0) else Advance(CoordAt(s, i - 1), s[i - 1])
  }

  /** The line of a coordinate counts the '\n' bytes before it. */
  lemma {:induction false} CoordLineCountsNewlines(s: seq<char>, i: nat)
    requires i <= |s|
    ensures CoordAt(s, i).line == Newlines(s[..i])
  {
    if i > 0 {
      assert s[..i] == s[..i - 1] + [s[i - 1]];
      CoordLineCountsNewlines(s, i - 1);
    }
  }

  /** Coordinates strictly increase with the offset. */
  lemma {:induction false} CoordStrictlyIncreasing(s: seq<char>, i: nat, j: nat)
    requires i < j <= |s|
    ensures Before(CoordAt(s, i), CoordAt(s, j))
  {
    if i + 1 < j {
      CoordStrictlyIncreasing(s, i, j - 1);
    }
  }

  /** Hence the coordinate map is injective and reflects the order. */
  lemma CoordOrder(s: seq<char>, i: nat, j: nat)
    requires i <= |s| && j <= |s|
    ensures Before(CoordAt(s, i), CoordAt(s, j)) <==> i < j
    ensures CoordAt(s, i) == CoordAt(s, j) <==> i == j
    ensures i <= j ==> CoordAt(s, i).line <= CoordAt(s, j).line
  {
    if i < j {
      CoordStrictlyIncreasing(s, i, j);
    } else if j < i {
      CoordStrictlyIncreasing(s, j, i);
    }
  }

  /** A coordinate depends only on the bytes before it. */
  lemma {:induction false} CoordAtPrefix(s: seq<char>, t: seq<char>, i: nat)
    requires i <= |s| && i <= |t| && s[..i] == t[..i]
    ensures CoordAt(s, i) == CoordAt(t, i)
  {
    if i > 0 {
      assert s[..i - 1] == s[..i][..i - 1] && t[..i - 1] == t[..i][..i - 1];
      assert s[i - 1] == s[..i][i - 1] && t[i - 1] == t[..i][i - 1];
      CoordAtPrefix(s, t, i - 1);
    }
  }

  /** Across a run with no '\n' only the column moves, by the run's length. */
  lemma {:induction false} CoordAcrossRun(s: seq<char>, a: nat, b: nat)
    requires a <= b <= |s|
    requires forall k :: a <= k < b ==> s[k] != '\n'
    ensures CoordAt(s, b) == Pos(CoordAt(s, a).line, CoordAt(s, a).column + (b - a))
  {
    if a < b {
      CoordAcrossRun(s, a, b - 1);
    }
  }

  /** The scan of buf_linecount: counts '\n' from `offset` on. */
  function CountFrom(s: seq<char>, offset: nat, count: nat): (n: nat)
    requires offset <= |s|
    ensures n == count + Newlines(s[offset..])
    decreases |s| - offset
  {
    if offset < |s| then
      assert s[offset..] == [s[offset]] + s[offset + 1..];
      CountFrom(s, offset + 1, if s[offset] == '\n' then count + 1 else count)
    else count
  }

  /** Number of '\n' bytes; the last line's index. */
  function LineCount(s: seq<char>): (n: nat)
    ensures n == CoordAt(s, |s|).line
  {
    assert s[..|s|] == s;
    assert s[0..] == s;
    CoordLineCountsNewlines(s, |s|);
    CountFrom(s, 0, 0)
  }

  /** The line count is the number of '\n' bytes. */
  lemma LineCountIsNewlines(s: seq<char>)
    ensures LineCount(s) == Newlines(s)
  {
    assert s[0..] == s;
  }

  /** First loop of line2offset: skips '\n' bytes until `line` of them have
      been passed or the content ends. */
  function LineStartScan(s: seq<char>, line: nat, offset: nat, current: nat): (r: nat)
    requires offset <= |s|
    requires current == CoordAt(s, offset).line && current <= line
    requires current == line ==> CoordAt(s, offset).column == 0
    ensures offset <= r <= |s|
    ensures CoordAt(s, r).line <= line
    ensures CoordAt(s, r).line == line ==> CoordAt(s, r).column == 0
    ensures CoordAt(s, r).line < line ==> r == |s|
    decreases |s| - offset
  {
    if current < line && offset < |s| then
      LineStartScan(s, line, offset + 1, if s[offset] == '\n' then current + 1 else current)
    else offset
  }

  /** Second loop of line2offset: advances up to `column - current` bytes,
      stopping before a '\n' or at the end. */
  function ColumnScan(s: seq<char>, column: nat, offset: nat, current: nat): (r: nat)
    requires offset <= |s| && current <= column
    ensures offset <= r <= |s|
    ensures r - offset <= column - current
    ensures forall k :: offset <= k < r ==> s[k] != '\n'
    ensures r - offset == column - current || r == |s| || s[r] == '\n'
    decreases |s| - offset
  {
    if current < column && offset < |s| && s[offset] != '\n' then
      ColumnScan(s, column, offset + 1, current + 1)
    else offset
  }

  /** Offset of (line, column). A line past the last one gives the end of
      the content; a column past the end of its line gives the line's end. */
  function Line2Offset(s: seq<char>, line: nat, column: nat): (r: nat)
    ensures r <= |s|
    ensures line <= LineCount(s) ==>
      && CoordAt(s, r).line == line
      && CoordAt(s, r).column <= column
      && (CoordAt(s, r).column == column || r == |s| || s[r] == '\n')
    ensures line > LineCount(s) ==> r == |s|
  {
    var start := LineStartScan(s, line, 0, 0);
    var r := ColumnScan(s, column, start, 0);
    CoordAcrossRun(s, start, r);
    CoordOrder(s, start, |s|);
    r
  }

  /** The loop of buf_linelen: bytes from `offset` up to a '\n' or the end. */
  function RunLength(s: seq<char>, offset: nat): (n: nat)
    requires offset <= |s|
    ensures offset + n <= |s|
    ensures forall k :: offset <= k < offset + n ==> s[k] != '\n'
    ensures offset + n == |s| || s[offset + n] == '\n'
    decreases |s| - offset
  {
    if offset < |s| && s[offset] != '\n' then 1 + RunLength(s, offset + 1) else 0
  }

  /** Length of a line, not counting its '\n'. */
  function LineLen(s: seq<char>, line: nat): nat {
    RunLength(s, Line2Offset(s, line, 0))
  }

  /** Min of two naturals. */
  function Min(a: nat, b: nat): nat {
    if a <= b then a else b
  }

  /** A coordinate that names a real offset (possibly the end). */
  predicate ValidPos(s: seq<char>, q: Pos) {
    q.line <= LineCount(s) && q.column <= LineLen(s, q.line)
  }

  /** The end of line `line`: Line2Offset at its length is the offset of the
      line's '\n', or the end of the content for the last line; every byte of
      the line before it is not a '\n'. */
  lemma LineEnd(s: seq<char>, line: nat)
    ensures var e := Line2Offset(s, line, LineLen(s, line));
      && (line < LineCount(s) ==> e < |s| && s[e] == '\n' && CoordAt(s, e).line == line)
      && (line >= LineCount(s) ==> e == |s|)
      && (line <= LineCount(s) ==> CoordAt(s, e) == Pos(line, LineLen(s, line)))
      && (forall k :: Line2Offset(s, line, 0) <= k < e ==> s[k] != '\n')
  {
    var st := Line2Offset(s, line, 0);
    var n := RunLength(s, st);
    assert n == LineLen(s, line);
    var e := Line2Offset(s, line, n);
    if line > LineCount(s) {
      assert st == |s| && n == 0;
    } else {
      assert line <= CoordAt(s, |s|).line;
      assert CoordAt(s, st) == Pos(line, 0);
      assert e <= |s| && CoordAt(s, e).line == line && CoordAt(s, e).column <= n;
      assert CoordAt(s, e).column == n || e == |s| || s[e] == '\n';
      LineEndExisting(s, line, st, n, e);
    }
  }

  /** LineEnd for a line that exists, from what the scans guarantee: the
      line starts at `st` with column 0, its run of bytes without a '\n' is
      `n` long, and `e` lies on the line no further right than
      column `n`, at column `n`, a '\n' or the end. */
  lemma LineEndExisting(s: seq<char>, line: nat, st: nat, n: nat, e: nat)
    requires line <= CoordAt(s, |s|).line
    requires st <= |s| && CoordAt(s, st) == Pos(line, 0)
    requires n == RunLength(s, st)
    requires e <= |s| && CoordAt(s, e).line == line && CoordAt(s, e).column <= n
    requires CoordAt(s, e).column == n || e == |s| || s[e] == '\n'
    ensures e == st + n && CoordAt(s, e) == Pos(line, n)
    ensures line < CoordAt(s, |s|).line ==> e < |s| && s[e] == '\n'
    ensures line == CoordAt(s, |s|).line ==> e == |s|
  {
    CoordAcrossRun(s, st, st + n);
    assert CoordAt(s, st + n) == Pos(line, n);
    CoordOrder(s, e, st + n);
    CoordOrder(s, st, e);
    assert e == st + n;
    if line == CoordAt(s, |s|).line && e < |s| {
      assert CoordAt(s, e + 1).line == line + 1;
      CoordOrder(s, e + 1, |s|);
    }
    if line < CoordAt(s, |s|).line && e == |s| {
      assert false;
    }
  }

  /** Line2Offset clamps the column to the line's length and lands exactly
      on that coordinate. */
  lemma Line2OffsetClamps(s: seq<char>, line: nat, column: nat)
    requires line <= LineCount(s)
    ensures CoordAt(s, Line2Offset(s, line, column)) == Pos(line, Min(column, LineLen(s, line)))
  {
    var r := Line2Offset(s, line, column);
    var n := LineLen(s, line);
    var st := Line2Offset(s, line, 0);
    LineEnd(s, line);
    var e := Line2Offset(s, line, n);
    CoordOrder(s, st, r);
    CoordOrder(s, r, e);
  }

  /** (0, 0) is offset 0 in every content. */
  lemma OriginIsOffsetZero(s: seq<char>)
    ensures Line2Offset(s, 0, 0) == 0
  {
  }

  /** Line2Offset inverts CoordAt: each offset is found again from its own
      coordinate. */
  lemma Line2OffsetOfCoord(s: seq<char>, i: nat)
    requires i <= |s|
    ensures Line2Offset(s, CoordAt(s, i).line, CoordAt(s, i).column) == i
  {
    var q := CoordAt(s, i);
    CoordOrder(s, i, |s|);
    assert q.line <= LineCount(s);
    var r := Line2Offset(s, q.line, q.column);
    var v := CoordAt(s, r);
    assert v.line == q.line && v.column <= q.column;
    CoordOrder(s, r, i);
    if v.column < q.column {
      // r lies before i on the same line, so it stops at a '\n' and the
      // next offset is already on a later line than i.
      assert r < i && s[r] == '\n';
      assert CoordAt(s, r + 1).line == q.line + 1;
      CoordOrder(s, r + 1, i);
      assert false;
    }
  }

  /** A valid coordinate is reached exactly. */
  lemma ValidPosReached(s: seq<char>, q: Pos)
    requires ValidPos(s, q)
    ensures CoordAt(s, Line2Offset(s, q.line, q.column)) == q
  {
    Line2OffsetClamps(s, q.line, q.column);
  }

  /** Conversely, the coordinate of every offset is a valid coordinate. */
  lemma CoordIsValid(s: seq<char>, i: nat)
    requires i <= |s|
    ensures ValidPos(s, CoordAt(s, i))
  {
    var q := CoordAt(s, i);
    CoordOrder(s, i, |s|);
    Line2OffsetOfCoord(s, i);
    Line2OffsetClamps(s, q.line, q.column);
  }

  /** A coordinate reached by an offset is valid and names that offset. */
  lemma CoordNamesOffset(s: seq<char>, i: nat, q: Pos)
    requires i <= |s| && CoordAt(s, i) == q
    ensures Line2Offset(s, q.line, q.column) == i && ValidPos(s, q)
  {
    Line2OffsetOfCoord(s, i);
    CoordIsValid(s, i);
  }
}
