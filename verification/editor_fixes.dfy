/**
 Typing and backspace over an active selection. As written, both commands
 compute the cursor offset before deleting the selection and use it after,
 so the byte goes in (or the second deletion happens) at a stale offset,
 and backspace at the very start deletes at offset 0. This module states
 those effects and gives the corrected commands, which recompute the
 offset after the selection is gone, with their properties.
 */
module EditorFixes {
  import opened Lines
  import opened Selection
  import opened Clipboard
  import opened Editor

  /** Backspace at (0, 0) without a selection calls buf_delete with offset
      0, outside its contract. */
  lemma BackspaceAtOriginUndefined(st: State, env: Env)
    requires !st.p.selOn && st.p.line == 0 && st.p.column == 0
    ensures Step(st, KeyBackspace, env) == Undefined
    ensures Step(st, KeyDc, env) == Undefined
  {
    assert Line2Offset(st.text, 0, 0) == 0;
  }

  /** When the cursor stands after the anchor, both on real coordinates,
      the selected run starts at the anchor's offset, strictly before the
      cursor's offset. */
  lemma CursorAfterRun(s: seq<char>, p: Pointer)
    requires p.selOn && ValidPos(s, p.Cursor()) && ValidPos(s, p.Anchor())
    requires Before(p.Anchor(), p.Cursor())
    ensures SelStart(s, p) == Line2Offset(s, p.selLine, p.selColumn)
    ensures SelStart(s, p) < Line2Offset(s, p.line, p.column) <= |s|
  {
    SelOffsetIsSelStart(s, p);
    ValidPosReached(s, p.Cursor());
    ValidPosReached(s, p.Anchor());
    CoordOrder(s, Line2Offset(s, p.selLine, p.selColumn), Line2Offset(s, p.line, p.column));
  }

  /** Typing over a selection with the cursor after the anchor, as written:
      the run is cut out, but the byte goes in at the cursor's offset from
      before the cut, o - a bytes past where the run began, or past the end
      of the shortened content (a seek out of range). The corrected command
      puts it where the run began. For example, with "ab" of "abc" selected
      from (0, 0) to (0, 1), typing "X" gives "cX" instead of "Xc". */
  lemma TypingOverSelectionUsesStaleOffset(st: State, code: int, env: Env)
    requires env.vHeight >= 1 && env.insertOk && IsTyped(code)
    requires st.p.selOn && ValidPos(st.text, st.p.Cursor()) && ValidPos(st.text, st.p.Anchor())
    requires Before(st.p.Anchor(), st.p.Cursor())
    ensures var s, a, b := st.text, SelStart(st.text, st.p), SelEnd(st.text, st.p);
      var o, c := Line2Offset(st.text, st.p.line, st.p.column), code as char;
      var t, r := s[..a] + s[b..], Step(st, Byte(code), env);
      && a < o && a <= |t|
      && (o <= |t| ==> r.Next? && r.st.text == InsertAt(t, o, c))
      && (o > |t| ==> r == Undefined)
      && InsertKeyFixed(st, c, true).st.text == InsertAt(t, a, c)
  {
    var s, p := st.text, st.p;
    var o := Line2Offset(s, p.line, p.column);
    CursorAfterRun(s, p);
    SelectionIsRun(s, p);
    TypedByteInserts(st, code, env, o, LineLen(s, p.line));
    InsertKeyFixedReplacesSelection(st, code as char);
  }

  /** The step for a typed byte over an active selection: the selection
      is deleted, then the byte goes in at the offset from before, with the
      cursor one column right of the smaller endpoint. */
  lemma TypingStepOverSelection(st: State, code: int, env: Env)
    requires env.vHeight >= 1 && env.insertOk && IsTyped(code) && st.p.selOn
    ensures var d, o, c := SelDelete(st.text, st.p), Line2Offset(st.text, st.p.line, st.p.column), code as char;
      var r := Step(st, Byte(code), env);
      && (o <= |d.text| ==> r.Next? && r.st.text == InsertAt(d.text, o, c) && r.st.p.Cursor() == Pos(Lo(st.p).line, Lo(st.p).column + 1))
      && (o > |d.text| ==> r == Undefined)
  {
    var s, p := st.text, st.p;
    var o, c := Line2Offset(s, p.line, p.column), code as char;
    var d := SelDelete(s, p);
    TypedByteInserts(st, code, env, o, LineLen(s, p.line));
    InsertKeyAt(st, o, c);
    if o <= |d.text| {
      StepOfNext(st, Byte(code), env, st.(text := InsertAt(d.text, o, c), p := AfterInsert(d.p, c)));
    }
  }

  /** The as-written typing command at a given offset: the selection is
      deleted, then the byte goes in at that offset if it is still in
      range. */
  lemma InsertKeyAt(st: State, o: nat, c: char)
    ensures var d := SelDelete(st.text, st.p);
      InsertKey(st, o, c, true) ==
        if o > |d.text| then Undefined
        else Next(st.(text := InsertAt(d.text, o, c), p := AfterInsert(d.p, c)))
  {
  }

  /** The stale offset can also leave the cursor off its line: with "ab"
      of "ab\ncd" selected from (0, 0) to (0, 1), typing "X" gives "\nXcd"
      with the cursor at (0, 1), past the end of the now empty line 0. */
  lemma TypingOverSelectionLeavesInvalidCursor(st: State, env: Env)
    requires env.vHeight >= 1 && env.insertOk
    requires IsExample(st.text) && st.p == Pointer(0, 1, 1, true, 0, 0)
    ensures var r := Step(st, Byte(88), env);
      && r.Next? && r.st.p.Cursor() == Pos(0, 1)
      && |r.st.text| == 4
      && r.st.text[0] == '\n' && r.st.text[1] == 'X' && r.st.text[2] == 'c' && r.st.text[3] == 'd'
      && !ValidPos(r.st.text, r.st.p.Cursor())
  {
    var s, p := st.text, st.p;
    ExampleSelection(s, p);
    TypingStepOverSelection(st, 88, env);
    var d, o := SelDelete(s, p), Line2Offset(s, p.line, p.column);
    assert Lo(p) == Pos(0, 0);
    var t := d.text;
    assert t == s[..0] + s[2..];
    assert |t| == 3 && t[0] == '\n' && t[1] == 'c' && t[2] == 'd';
    var r := Step(st, Byte(88), env);
    assert r.Next? && r.st.text == InsertAt(t, 1, 88 as char);
    var u := r.st.text;
    assert u[..1] == t[..1] && u[2..] == t[1..];
    assert u[0] == t[0] && u[2] == t[1] && u[3] == t[2];
    EmptyFirstLine(u);
  }

  /** The content is "ab\ncd". */
  predicate IsExample(s: seq<char>) {
    |s| == 5 && s[0] == 'a' && s[1] == 'b' && s[2] == '\n' && s[3] == 'c' && s[4] == 'd'
  }

  /** In "ab\ncd", the selection from (0, 0) to (0, 1) is the run [0, 2)
      and both endpoints are real coordinates. */
  lemma ExampleSelection(s: seq<char>, p: Pointer)
    requires IsExample(s) && p == Pointer(0, 1, 1, true, 0, 0)
    ensures ValidPos(s, p.Cursor()) && ValidPos(s, p.Anchor())
    ensures SelStart(s, p) == 0 && SelEnd(s, p) == 2
    ensures Line2Offset(s, p.line, p.column) == 1
  {
    assert CoordAt(s, 1) == Pos(0, 1) && CoordAt(s, 2) == Pos(0, 2);
    Line2OffsetOfCoord(s, 1);
    CoordIsValid(s, 0);
    CoordIsValid(s, 1);
    SelectionIsRun(s, p);
    assert SelectedAt(s, p, 0) && SelectedAt(s, p, 1) && !SelectedAt(s, p, 2);
  }

  /** A content that starts with '\n' has an empty line 0. */
  lemma EmptyFirstLine(t: seq<char>)
    requires |t| > 0 && t[0] == '\n'
    ensures LineLen(t, 0) == 0
  {
    OriginIsOffsetZero(t);
  }

  /** Backspace over a selection with the cursor after the anchor, as
      written: the run is cut out and then one more byte goes, the one
      before the cursor's offset from before the cut, or buf_delete is
      called past the end of the shortened content. The corrected command
      removes the run only. For example, on "abcd" with the anchor at
      (0, 1) and the cursor at (0, 2), backspace leaves "a" instead of "ad". */
  lemma BackspaceOverSelectionDeletesTwice(st: State, env: Env)
    requires env.vHeight >= 1
    requires st.p.selOn && ValidPos(st.text, st.p.Cursor()) && ValidPos(st.text, st.p.Anchor())
    requires Before(st.p.Anchor(), st.p.Cursor())
    ensures var s, a, b := st.text, SelStart(st.text, st.p), SelEnd(st.text, st.p);
      var o := Line2Offset(st.text, st.p.line, st.p.column);
      var t, r := s[..a] + s[b..], Step(st, KeyBackspace, env);
      && 1 <= o && a <= b <= |s|
      && (o <= |t| ==> r.Next? && r.st.text == DeleteBefore(t, o) && |r.st.text| == |s| - (b - a) - 1)
      && (o > |t| ==> r == Undefined)
      && BackspaceFixed(st).st.text == t
  {
    var s, p := st.text, st.p;
    var o := Line2Offset(s, p.line, p.column);
    CursorAfterRun(s, p);
    SelectionIsRun(s, p);
    assert Command(st, KeyBackspace, env, o, LineLen(s, p.line)) == Backspace(st, o);
  }

  /** Pointer after inserting byte `c` at the cursor. */
  function AfterInsert(p: Pointer, c: char): Pointer {
    if c == '\n' then p.(line := p.line + 1, column := 0, oldColumn := 0)
    else p.(column := p.column + 1, oldColumn := p.column + 1)
  }

  /** Typing with the offset taken after the selection is deleted. */
  function InsertKeyFixed(st: State, c: char, ok: bool): (r: Outcome)
    ensures r.Next?
    ensures !st.p.selOn ==> r == InsertKey(st, Line2Offset(st.text, st.p.line, st.p.column), c, ok)
  {
    var d := SelDelete(st.text, st.p);
    var offset := Line2Offset(d.text, d.p.line, d.p.column);
    if !ok then Next(st.(text := d.text, p := d.p))
    else Next(st.(text := InsertAt(d.text, offset, c), p := AfterInsert(d.p, c)))
  }

  /** Backspace that deletes only the selection when one is active and does
      nothing at the start of the content. */
  function BackspaceFixed(st: State): (r: Outcome)
    ensures r.Next?
    ensures st.p.selOn ==> r == Next(st.(text := SelDelete(st.text, st.p).text, p := SelDelete(st.text, st.p).p))
    ensures !st.p.selOn && Line2Offset(st.text, st.p.line, st.p.column) > 0 ==>
      r == Backspace(st, Line2Offset(st.text, st.p.line, st.p.column))
    ensures !st.p.selOn && Line2Offset(st.text, st.p.line, st.p.column) == 0 ==> r == Next(st)
  {
    if st.p.selOn then
      var d := SelDelete(st.text, st.p);
      Next(st.(text := d.text, p := d.p))
    else
      var offset := Line2Offset(st.text, st.p.line, st.p.column);
      if offset == 0 then Next(st) else Backspace(st, offset)
  }

  /** After the selected run is cut out, the smaller endpoint addresses the
      offset where the run began. */
  lemma LoAddressesCut(s: seq<char>, p: Pointer)
    requires p.selOn && ValidPos(s, Lo(p))
    ensures var t := SelDelete(s, p).text;
      && SelStart(s, p) <= |t|
      && CoordAt(t, SelStart(s, p)) == Lo(p)
      && Line2Offset(t, Lo(p).line, Lo(p).column) == SelStart(s, p)
  {
    var a := SelStart(s, p);
    var t := SelDelete(s, p).text;
    SelectionIsRun(s, p);
    SelOffsetIsSelStart(s, p);
    ValidPosReached(s, Lo(p));
    assert t[..a] == s[..a];
    CoordAtPrefix(s, t, a);
    Line2OffsetOfCoord(t, a);
  }

  /** The corrected typing replaces the selected run by the typed byte and
      leaves the cursor just after it. */
  lemma InsertKeyFixedReplacesSelection(st: State, c: char)
    requires st.p.selOn && ValidPos(st.text, Lo(st.p))
    ensures var s, a, b := st.text, SelStart(st.text, st.p), SelEnd(st.text, st.p);
      a <= b <= |s| &&
      InsertKeyFixed(st, c, true).st.text == s[..a] + [c] + s[b..]
  {
    var s, a, b := st.text, SelStart(st.text, st.p), SelEnd(st.text, st.p);
    SelectionIsRun(s, st.p);
    LoAddressesCut(s, st.p);
    var t := SelDelete(s, st.p).text;
    assert t[..a] == s[..a] && t[a..] == s[b..];
  }

  /** The corrected backspace over a selection removes exactly the selected
      run and never reaches an undefined call. */
  lemma BackspaceFixedRemovesSelection(st: State)
    requires st.p.selOn
    ensures var s := st.text;
      BackspaceFixed(st).st.text == s[..SelStart(s, st.p)] + s[SelEnd(s, st.p)..]
    ensures |BackspaceFixed(st).st.text| == |st.text| - SelLength(st.text, st.p)
  {
  }

  /** With a view height of 0 the auto-scroll never ends, as written: the
      shift is 0, so after any number of passes the loop that runs (the
      first when the cursor line is at or below the top line, the second
      otherwise) has not moved the top line and its guard still holds. */
  lemma {:induction false} ZeroHeightScrollNeverEnds(vLine: nat, line: nat, k: nat)
    ensures vLine <= line ==> ScrollDownPasses(vLine, 0, line, k) == vLine && ScrollDownPasses(vLine, 0, line, k) + 0 <= line
    ensures vLine > line ==> ScrollDownPasses(vLine, 0, line, k) == vLine
    ensures vLine > line ==> ScrollUpPasses(vLine, 0, line, k) == vLine && ScrollUpPasses(vLine, 0, line, k) > line
    decreases k
  {
    if k > 0 {
      ZeroHeightScrollNeverEnds(vLine, line, k - 1);
    }
  }

  /** A step whose command continues hangs at a view height of 0. */
  lemma ZeroHeightStepHangs(st: State, key: Key, env: Env)
    requires env.vHeight == 0
    requires Command(st, key, env, Line2Offset(st.text, st.p.line, st.p.column), LineLen(st.text, st.p.line)).Next?
    ensures Step(st, key, env) == Hang
  {
  }

  /** Auto-scroll with the shift clamped to at least one line: it ends for
      every height, with the cursor line inside a view of that many lines. */
  function ScrollFixed(vLine: nat, height: nat, line: nat): (r: nat)
    ensures var h := if height == 0 then 1 else height;
      && r <= line < r + h
      && (vLine <= line ==> r >= vLine && WholeViews(r - vLine, h))
      && (vLine > line ==> r < vLine && (r == 0 || WholeViews(vLine - r, h)))
      && (vLine <= line < vLine + h ==> r == vLine)
  {
    Scroll(vLine, if height == 0 then 1 else height, line)
  }

  /** The two loops as written, run with the clamped shift, stop at the
      corrected result after a bounded number of passes. */
  lemma ScrollFixedIsLoop(vLine: nat, height: nat, line: nat)
    ensures var h := if height == 0 then 1 else height;
      var down := ScrollDownPasses(vLine, h, line, line + 1);
      ScrollUpPasses(down, h, line, vLine + 1) == ScrollFixed(vLine, height, line)
  {
    var h := if height == 0 then 1 else height;
    ScrollDownPassesEnd(vLine, h, line, line + 1);
    var down := ScrollDown(vLine, h, line);
    ScrollUpPassesEnd(down, h, line, vLine + 1);
  }
}
