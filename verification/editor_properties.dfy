/**
 What one iteration of the editor loop does to the cursor, the content and
 the clipboard, key by key, and the invariant the keys keep: with the
 selection off, a cursor that names a real coordinate still names one after
 every key.
 */
module EditorProperties {
  import opened Lines
  import opened Selection
  import opened Clipboard
  import opened Editor
  import opened EditorFixes

  /** The cursor names a real coordinate of the content. */
  predicate CursorValid(st: State) {
    ValidPos(st.text, st.p.Cursor())
  }

  /** The column is where the sticky column clamps to on the cursor line. */
  predicate Sticky(st: State) {
    st.p.column == Min(st.p.oldColumn, LineLen(st.text, st.p.line))
  }

  /** The command for up, for any precomputed offset and line length. */
  lemma UpCommand(st: State, env: Env, o: nat, l: nat)
    ensures Command(st, KeyUp, env, o, l)
         == Next(st.(p := if st.p.line != 0 then MoveToLine(st.text, st.p, st.p.line - 1) else st.p))
  {
  }

  /** The command for down. */
  lemma DownCommand(st: State, env: Env, o: nat, l: nat)
    ensures Command(st, KeyDown, env, o, l)
         == Next(st.(p := if st.p.line < LineCount(st.text) then MoveToLine(st.text, st.p, st.p.line + 1) else st.p))
  {
  }

  /** The command for page down. */
  lemma NPageCommand(st: State, env: Env, o: nat, l: nat)
    ensures Command(st, KeyNPage, env, o, l)
         == Next(st.(p := MoveToLine(st.text, st.p, Min(st.p.line + env.vHeight, LineCount(st.text)))))
  {
  }

  /** The command for page up. */
  lemma PPageCommand(st: State, env: Env, o: nat, l: nat)
    ensures Command(st, KeyPPage, env, o, l)
         == Next(st.(p := MoveToLine(st.text, st.p, if env.vHeight > st.p.line then 0 else st.p.line - env.vHeight)))
  {
  }

  /** The command for the horizontal keys, with `l` the line length. */
  lemma HorizontalCommands(st: State, env: Env, o: nat, l: nat)
    ensures var p := st.p;
      && Command(st, KeyLeft, env, o, l)
         == Next(st.(p := if p.column != 0 then p.(column := p.column - 1, oldColumn := p.column - 1) else p))
      && Command(st, KeyRight, env, o, l)
         == Next(st.(p := if p.column < l then p.(column := p.column + 1, oldColumn := p.column + 1) else p))
      && Command(st, KeyHome, env, o, l) == Next(st.(p := p.(column := 0, oldColumn := 0)))
      && Command(st, KeyEnd, env, o, l) == Next(st.(p := p.(column := l, oldColumn := l)))
  {
  }

  /** Up: to the previous line at the clamped sticky column, or nothing at
      line 0. Content, clipboard, sticky column and selection are kept. */
  lemma KeyUpMoves(st: State, env: Env)
    requires env.vHeight >= 1
    ensures var r := Step(st, KeyUp, env);
      && r.Next? && r.st.text == st.text && r.st.clip == st.clip
      && (st.p.line == 0 ==> r.st.p == st.p)
      && (st.p.line > 0 ==>
            && r.st.p.line == st.p.line - 1
            && r.st.p.column == Min(st.p.oldColumn, LineLen(st.text, st.p.line - 1))
            && r.st.p == st.p.(line := r.st.p.line, column := r.st.p.column))
  {
    UpCommand(st, env, Line2Offset(st.text, st.p.line, st.p.column), LineLen(st.text, st.p.line));
  }

  /** Down: to the next line at the clamped sticky column, never past the
      last line. */
  lemma KeyDownMoves(st: State, env: Env)
    requires env.vHeight >= 1
    ensures var r := Step(st, KeyDown, env);
      && r.Next? && r.st.text == st.text && r.st.clip == st.clip
      && (st.p.line >= LineCount(st.text) ==> r.st.p == st.p)
      && (st.p.line < LineCount(st.text) ==>
            && r.st.p.line == st.p.line + 1 <= LineCount(st.text)
            && r.st.p.column == Min(st.p.oldColumn, LineLen(st.text, st.p.line + 1))
            && r.st.p == st.p.(line := r.st.p.line, column := r.st.p.column))
  {
    DownCommand(st, env, Line2Offset(st.text, st.p.line, st.p.column), LineLen(st.text, st.p.line));
  }

  /** Page down: one view further, clamped to the last line. */
  lemma KeyNPageMoves(st: State, env: Env)
    requires env.vHeight >= 1
    ensures var r := Step(st, KeyNPage, env);
      && r.Next? && r.st.text == st.text && r.st.clip == st.clip
      && r.st.p.line == Min(st.p.line + env.vHeight, LineCount(st.text))
      && r.st.p.column == Min(st.p.oldColumn, LineLen(st.text, r.st.p.line))
      && r.st.p == st.p.(line := r.st.p.line, column := r.st.p.column)
  {
    NPageCommand(st, env, Line2Offset(st.text, st.p.line, st.p.column), LineLen(st.text, st.p.line));
  }

  /** Page up: one view back, clamped to line 0. */
  lemma KeyPPageMoves(st: State, env: Env)
    requires env.vHeight >= 1
    ensures var r := Step(st, KeyPPage, env);
      && r.Next? && r.st.text == st.text && r.st.clip == st.clip
      && r.st.p.line == (if st.p.line < env.vHeight then 0 else st.p.line - env.vHeight)
      && r.st.p.column == Min(st.p.oldColumn, LineLen(st.text, r.st.p.line))
      && r.st.p == st.p.(line := r.st.p.line, column := r.st.p.column)
  {
    PPageCommand(st, env, Line2Offset(st.text, st.p.line, st.p.column), LineLen(st.text, st.p.line));
  }

  /** Left: one column back unless at column 0; the new column becomes the
      sticky one. */
  lemma KeyLeftMoves(st: State, env: Env)
    requires env.vHeight >= 1
    ensures var r := Step(st, KeyLeft, env);
      && r.Next? && r.st.text == st.text && r.st.clip == st.clip
      && r.st.p == (if st.p.column == 0 then st.p
                    else st.p.(column := st.p.column - 1, oldColumn := st.p.column - 1))
  {
    HorizontalCommands(st, env, Line2Offset(st.text, st.p.line, st.p.column), LineLen(st.text, st.p.line));
  }

  /** Right: one column on unless at the end of the cursor line. */
  lemma KeyRightMoves(st: State, env: Env)
    requires env.vHeight >= 1
    ensures var r, n := Step(st, KeyRight, env), LineLen(st.text, st.p.line);
      && r.Next? && r.st.text == st.text && r.st.clip == st.clip
      && r.st.p == (if st.p.column >= n then st.p
                    else st.p.(column := st.p.column + 1, oldColumn := st.p.column + 1))
  {
    HorizontalCommands(st, env, Line2Offset(st.text, st.p.line, st.p.column), LineLen(st.text, st.p.line));
  }

  /** Home and end: to column 0 or to the end of the cursor line. */
  lemma HomeEndMove(st: State, env: Env)
    requires env.vHeight >= 1
    ensures var h, e, n := Step(st, KeyHome, env), Step(st, KeyEnd, env), LineLen(st.text, st.p.line);
      && h.Next? && h.st.text == st.text && h.st.p == st.p.(column := 0, oldColumn := 0)
      && e.Next? && e.st.text == st.text && e.st.p == st.p.(column := n, oldColumn := n)
  {
    HorizontalCommands(st, env, Line2Offset(st.text, st.p.line, st.p.column), LineLen(st.text, st.p.line));
  }

  /** Down then up comes back to the same pointer and content, from any
      line but the last, when the column is where the sticky column
      clamps to. */
  lemma {:induction false} DownThenUpRestores(st: State, env: Env)
    requires env.vHeight >= 1
    requires st.p.line < LineCount(st.text) && Sticky(st)
    ensures var d := Step(st, KeyDown, env);
      d.Next? && var u := Step(d.st, KeyUp, env);
      u.Next? && u.st.p == st.p && u.st.text == st.text
  {
    KeyDownMoves(st, env);
    var d := Step(st, KeyDown, env);
    KeyUpMoves(d.st, env);
  }

  /** Typing a byte, or a newline, with the selection off and a valid
      cursor: the byte goes in at the cursor offset and the cursor lands on
      the coordinate just after it, which is again valid. */
  lemma TypingInsertsAtCursor(st: State, code: int, env: Env)
    requires env.vHeight >= 1 && env.insertOk
    requires !st.p.selOn && CursorValid(st)
    requires IsTyped(code) || code == 10
    ensures var s, o, c := st.text, Line2Offset(st.text, st.p.line, st.p.column), code as char;
      var r := Step(st, Byte(code), env);
      && r.Next?
      && r.st.text == s[..o] + [c] + s[o..]
      && r.st.p.Cursor() == CoordAt(r.st.text, o + 1)
      && Line2Offset(r.st.text, r.st.p.line, r.st.p.column) == o + 1
      && CursorValid(r.st)
      && r.st.p.oldColumn == r.st.p.column && !r.st.p.selOn
  {
    var s, o, c := st.text, Line2Offset(st.text, st.p.line, st.p.column), code as char;
    TypingStep(st, code, env);
    ValidPosReached(s, st.p.Cursor());
    InsertedCoord(s, o, c);
  }

  /** The step for a typed byte or newline with the selection off. */
  lemma TypingStep(st: State, code: int, env: Env)
    requires env.vHeight >= 1 && env.insertOk
    requires !st.p.selOn
    requires IsTyped(code) || code == 10
    ensures var s, o, c := st.text, Line2Offset(st.text, st.p.line, st.p.column), code as char;
      var r := Step(st, Byte(code), env);
      && r.Next?
      && r.st.text == InsertAt(s, o, c)
      && r.st.p.Cursor() == Advance(st.p.Cursor(), c)
      && r.st.p.oldColumn == r.st.p.column && !r.st.p.selOn
  {
    var s, o, c := st.text, Line2Offset(st.text, st.p.line, st.p.column), code as char;
    assert Command(st, Byte(code), env, o, LineLen(s, st.p.line)) == InsertKey(st, o, c, true);
  }

  /** After inserting `c` at offset `o`, offset o + 1 has the coordinate
      that reading `c` from the coordinate of `o` gives, and names it. */
  lemma InsertedCoord(s: seq<char>, o: nat, c: char)
    requires o <= |s|
    ensures var t := InsertAt(s, o, c);
      && CoordAt(t, o + 1) == Advance(CoordAt(s, o), c)
      && Line2Offset(t, CoordAt(t, o + 1).line, CoordAt(t, o + 1).column) == o + 1
      && ValidPos(t, CoordAt(t, o + 1))
  {
    var t := InsertAt(s, o, c);
    CoordAtPrefix(s, t, o);
    Line2OffsetOfCoord(t, o + 1);
    CoordIsValid(t, o + 1);
  }

  /** Delete and backspace are the same command. */
  lemma DeleteKeysAgree(st: State, env: Env)
    requires env.vHeight >= 1
    ensures Step(st, KeyDc, env) == Step(st, KeyBackspace, env)
  {
  }

  /** With the selection off and a valid cursor that is not at (0, 0),
      backspace removes the byte before the cursor and the cursor lands on
      that byte's coordinate: one column back, or the end of the previous
      line when the removed byte was a '\n'. */
  lemma {:induction false} BackspaceRemovesPrevious(st: State, env: Env)
    requires env.vHeight >= 1
    requires !st.p.selOn && CursorValid(st) && st.p.Cursor() != Pos(0, 0)
    ensures var s, o := st.text, Line2Offset(st.text, st.p.line, st.p.column);
      var r := Step(st, KeyBackspace, env);
      && 0 < o <= |s| && r.Next?
      && r.st.text == s[..o - 1] + s[o..]
      && r.st.p.Cursor() == CoordAt(s, o - 1)
      && Line2Offset(r.st.text, r.st.p.line, r.st.p.column) == o - 1
      && CursorValid(r.st)
      && r.st.p.oldColumn == r.st.p.column
  {
    var s, o := st.text, Line2Offset(st.text, st.p.line, st.p.column);
    BackspaceLands(s, st.p, o);
    var q := BackspaceStep(st, env);
  }

  /** Where backspace leaves the cursor, on the content alone: one column
      back, or the end of the previous line, which is the old coordinate of
      offset o - 1; in the content without that byte it names o - 1. */
  lemma BackspaceLands(s: seq<char>, p: Pointer, o: nat)
    requires ValidPos(s, p.Cursor()) && p.Cursor() != Pos(0, 0)
    requires o == Line2Offset(s, p.line, p.column)
    ensures 0 < o <= |s|
    ensures var q := if p.column != 0 then Pos(p.line, p.column - 1)
                     else Pos(p.line - 1, LineLen(s, p.line - 1));
      && q == CoordAt(s, o - 1)
      && Line2Offset(DeleteBefore(s, o), q.line, q.column) == o - 1
      && ValidPos(DeleteBefore(s, o), q)
  {
    CursorOffset(s, p, o);
    PreviousCoord(s, o);
    DeletedBefore(s, o);
  }

  /** A valid cursor other than (0, 0) has a positive offset, whose
      coordinate it is. */
  lemma CursorOffset(s: seq<char>, p: Pointer, o: nat)
    requires ValidPos(s, p.Cursor()) && p.Cursor() != Pos(0, 0)
    requires o == Line2Offset(s, p.line, p.column)
    ensures 0 < o <= |s| && CoordAt(s, o) == p.Cursor()
  {
    ValidPosReached(s, p.Cursor());
    assert o != 0 by {
      assert CoordAt(s, 0) == Pos(0, 0);
    }
  }

  /** Removing the byte at o - 1 keeps the coordinate of o - 1, which then
      names o - 1 and is valid in the shorter content. */
  lemma DeletedBefore(s: seq<char>, o: nat)
    requires 0 < o <= |s|
    ensures var t, v := DeleteBefore(s, o), CoordAt(s, o - 1);
      && CoordAt(t, o - 1) == v
      && Line2Offset(t, v.line, v.column) == o - 1
      && ValidPos(t, v)
  {
    var v := CoordAt(s, o - 1);
    var t := DeleteBefore(s, o);
    assert t[..o - 1] == s[..o - 1];
    CoordAtPrefix(s, t, o - 1);
    CoordNamesOffset(t, o - 1, v);
  }

  /** The step for backspace with the selection off, away from offset 0:
      the byte before the cursor goes and the cursor moves back one column
      or to the end of the previous line. */
  lemma BackspaceStep(st: State, env: Env) returns (q: Pointer)
    requires env.vHeight >= 1 && !st.p.selOn
    requires 0 < Line2Offset(st.text, st.p.line, st.p.column)
    ensures var s, o, p := st.text, Line2Offset(st.text, st.p.line, st.p.column), st.p;
      && q == (if p.column != 0 then p.(column := p.column - 1, oldColumn := p.column - 1)
               else if p.line > 0 then
                 p.(line := p.line - 1, column := LineLen(s, p.line - 1), oldColumn := LineLen(s, p.line - 1))
               else p)
      && Step(st, KeyBackspace, env)
         == Next(st.(text := DeleteBefore(s, o), p := q, vLine := Scroll(st.vLine, env.vHeight, q.line)))
  {
    var s, o, p := st.text, Line2Offset(st.text, st.p.line, st.p.column), st.p;
    q := if p.column != 0 then p.(column := p.column - 1, oldColumn := p.column - 1)
         else if p.line > 0 then
           p.(line := p.line - 1, column := LineLen(s, p.line - 1), oldColumn := LineLen(s, p.line - 1))
         else p;
    assert Command(st, KeyBackspace, env, o, LineLen(s, p.line)) == Backspace(st, o);
  }

  /** The coordinate before offset `o`: one column back, or, after a '\n',
      the end of the previous line. */
  lemma PreviousCoord(s: seq<char>, o: nat)
    requires 0 < o <= |s|
    ensures var q := CoordAt(s, o);
      CoordAt(s, o - 1) ==
        if q.column != 0 then Pos(q.line, q.column - 1)
        else Pos(q.line - 1, LineLen(s, q.line - 1))
  {
    var q, v := CoordAt(s, o), CoordAt(s, o - 1);
    assert q == Advance(v, s[o - 1]);
    if q.column == 0 {
      assert s[o - 1] == '\n' && q.line == v.line + 1;
      var l := v.line;
      CoordOrder(s, o, |s|);
      assert l < LineCount(s);
      LineEnd(s, l);
      var e := Line2Offset(s, l, LineLen(s, l));
      assert e < |s| && s[e] == '\n' && CoordAt(s, e) == Pos(l, LineLen(s, l));
      if e < o - 1 {
        assert CoordAt(s, e + 1).line == l + 1;
        CoordOrder(s, e + 1, o - 1);
      } else if e > o - 1 {
        CoordOrder(s, o, e);
      }
      assert e == o - 1;
    }
  }

  /** Ctrl-T flips the selection and anchors it at the cursor; a selection
      just turned on holds exactly the cursor's coordinate. */
  lemma ToggleAnchorsAtCursor(st: State, env: Env)
    requires env.vHeight >= 1
    ensures var r, p := Step(st, Byte(20), env), st.p;
      && r.Next? && r.st.text == st.text && r.st.clip == st.clip
      && r.st.p == p.(selOn := !p.selOn, selLine := p.line, selColumn := p.column)
      && (!p.selOn ==> forall i :: 0 <= i < |st.text| ==>
            (SelectedAt(st.text, r.st.p, i) <==> CoordAt(st.text, i) == p.Cursor()))
  {
    var r := Step(st, Byte(20), env);
    assert r.st.p == st.p.(selOn := !st.p.selOn, selLine := st.p.line, selColumn := st.p.column);
  }

  /** The step for Ctrl-X: when the copy succeeds the selection is deleted
      and the clipboard replaced; otherwise only the clipboard changes. */
  lemma CutStep(st: State, env: Env)
    requires env.vHeight >= 1
    ensures var c, d := SetCopyBuf(st.text, st.p, st.clip, env.copyOk), SelDelete(st.text, st.p);
      Step(st, Byte(24), env) ==
        if c.ok then Next(st.(text := d.text, p := d.p, clip := c.clip, vLine := Scroll(st.vLine, env.vHeight, d.p.line)))
        else Next(st.(clip := c.clip, vLine := Scroll(st.vLine, env.vHeight, st.p.line)))
  {
    var s := st.text;
    assert !IsTyped(24) && !IsCtrl(24, 'Q') && !IsCtrl(24, 'T') && IsCtrl(24, 'X');
    var c, d := SetCopyBuf(s, st.p, st.clip, env.copyOk), SelDelete(s, st.p);
    assert Command(st, Byte(24), env, Line2Offset(s, st.p.line, st.p.column), LineLen(s, st.p.line))
        == if c.ok then Next(st.(text := d.text, p := d.p, clip := c.clip)) else Next(st.(clip := c.clip));
  }

  /** The step for Ctrl-C: only the clipboard changes. */
  lemma CopyStep(st: State, env: Env)
    requires env.vHeight >= 1
    ensures Step(st, Byte(3), env) ==
      Next(st.(clip := SetCopyBuf(st.text, st.p, st.clip, env.copyOk).clip, vLine := Scroll(st.vLine, env.vHeight, st.p.line)))
  {
    var s := st.text;
    assert !IsTyped(3) && !IsCtrl(3, 'Q') && !IsCtrl(3, 'T') && !IsCtrl(3, 'X') && IsCtrl(3, 'C');
    assert Command(st, Byte(3), env, Line2Offset(s, st.p.line, st.p.column), LineLen(s, st.p.line))
        == Next(st.(clip := SetCopyBuf(s, st.p, st.clip, env.copyOk).clip));
  }

  /** Ctrl-X with a selection whose smaller endpoint is valid and a
      successful copy: the selected run moves to the clipboard, the cursor
      goes to where the run began, and it names that offset in the new
      content. */
  lemma CutMovesRunToClipboard(st: State, env: Env)
    requires env.vHeight >= 1 && env.copyOk
    requires st.p.selOn && ValidPos(st.text, Lo(st.p))
    ensures var s, a, b := st.text, SelStart(st.text, st.p), SelEnd(st.text, st.p);
      var r := Step(st, Byte(24), env);
      && a <= b <= |s| && r.Next?
      && r.st.text == s[..a] + s[b..]
      && r.st.clip == Some(s[a..b])
      && r.st.p.Cursor() == Lo(st.p) && !r.st.p.selOn
      && CursorValid(r.st)
  {
    var s, a := st.text, SelStart(st.text, st.p);
    SelectionIsRun(s, st.p);
    CopyIsSelectedRun(s, st.p, st.clip);
    CutStep(st, env);
    var d := SelDelete(s, st.p);
    assert CoordAt(d.text, a) == Lo(st.p) by {
      LoAddressesCut(s, st.p);
    }
    CoordIsValid(d.text, a);
  }

  /** Ctrl-C with a selection whose smaller endpoint is valid and a
      successful copy: the clipboard holds the selected run; content and
      pointer are untouched. */
  lemma CopyTakesRun(st: State, env: Env)
    requires env.vHeight >= 1 && env.copyOk
    requires st.p.selOn && ValidPos(st.text, Lo(st.p))
    ensures var s, r := st.text, Step(st, Byte(3), env);
      && SelStart(s, st.p) <= SelEnd(s, st.p) <= |s| && r.Next?
      && r.st.text == s && r.st.p == st.p
      && r.st.clip == Some(s[SelStart(s, st.p)..SelEnd(s, st.p)])
  {
    SelectionIsRun(st.text, st.p);
    CopyIsSelectedRun(st.text, st.p, st.clip);
    CopyStep(st, env);
  }

  /** Ctrl-Q ends the loop; codes the editor does not react to (Ctrl-S,
      whose write is outside this model, Ctrl-P, whose body is empty, and
      every other unbound code) change nothing but the view. */
  lemma QuitAndIgnoredCodes(st: State, code: int, env: Env)
    requires env.vHeight >= 1
    ensures Step(st, Byte(17), env) == Quit
    ensures !IsTyped(code) && !(code in {10, 17, 20, 24, 3}) ==>
      var r := Step(st, Byte(code), env);
      r.Next? && r.st.text == st.text && r.st.p == st.p && r.st.clip == st.clip
  {
  }

  /** A failed insertion still deletes the selection (the deletion runs
      first), and puts nothing in. */
  lemma FailedInsertOnlyDeletesSelection(st: State, code: int, env: Env)
    requires env.vHeight >= 1 && !env.insertOk
    requires IsTyped(code) || code == 10
    ensures var r, d := Step(st, Byte(code), env), SelDelete(st.text, st.p);
      r.Next? && r.st.text == d.text && r.st.p == d.p && r.st.clip == st.clip
  {
    var s := st.text;
    assert Command(st, Byte(code), env, Line2Offset(s, st.p.line, st.p.column), LineLen(s, st.p.line))
        == InsertKey(st, Line2Offset(s, st.p.line, st.p.column), code as char, false);
  }

  /** With the selection off, cut and copy leave content and pointer alone
      (what they put on the clipboard is the empty selection). */
  lemma ClipboardKeysWithoutSelection(st: State, env: Env)
    requires env.vHeight >= 1 && !st.p.selOn
    ensures var x, c := Step(st, Byte(24), env), Step(st, Byte(3), env);
      && x.Next? && x.st.text == st.text && x.st.p == st.p
      && c.Next? && c.st.text == st.text && c.st.p == st.p
  {
    CutStep(st, env);
    CopyStep(st, env);
  }

  /** Every key that moves along the cursor line keeps a valid cursor
      valid. */
  lemma HorizontalKeepsCursorValid(st: State, key: Key, env: Env)
    requires env.vHeight >= 1 && CursorValid(st)
    requires key in {KeyLeft, KeyRight, KeyHome, KeyEnd}
    ensures Step(st, key, env).Next? && CursorValid(Step(st, key, env).st)
  {
    var s, p := st.text, st.p;
    match key
    case KeyLeft =>
      KeyLeftMoves(st, env);
      OnLineIsValid(st, Step(st, key, env), p.line, if p.column == 0 then 0 else p.column - 1);
    case KeyRight =>
      KeyRightMoves(st, env);
      OnLineIsValid(st, Step(st, key, env), p.line, if p.column >= LineLen(s, p.line) then p.column else p.column + 1);
    case KeyHome =>
      HomeEndMove(st, env);
      OnLineIsValid(st, Step(st, key, env), p.line, 0);
    case KeyEnd =>
      HomeEndMove(st, env);
      OnLineIsValid(st, Step(st, key, env), p.line, LineLen(s, p.line));
  }

  /** Up keeps a valid cursor valid. */
  lemma UpKeepsCursorValid(st: State, env: Env)
    requires env.vHeight >= 1 && CursorValid(st)
    ensures Step(st, KeyUp, env).Next? && CursorValid(Step(st, KeyUp, env).st)
  {
    var s, p := st.text, st.p;
    KeyUpMoves(st, env);
    if p.line == 0 {
      OnLineIsValid(st, Step(st, KeyUp, env), p.line, p.column);
    } else {
      OnLineIsValid(st, Step(st, KeyUp, env), p.line - 1, Min(p.oldColumn, LineLen(s, p.line - 1)));
    }
  }

  /** Down keeps a valid cursor valid. */
  lemma DownKeepsCursorValid(st: State, env: Env)
    requires env.vHeight >= 1 && CursorValid(st)
    ensures Step(st, KeyDown, env).Next? && CursorValid(Step(st, KeyDown, env).st)
  {
    var s, p := st.text, st.p;
    KeyDownMoves(st, env);
    if p.line < LineCount(s) {
      OnLineIsValid(st, Step(st, KeyDown, env), p.line + 1, Min(p.oldColumn, LineLen(s, p.line + 1)));
    } else {
      OnLineIsValid(st, Step(st, KeyDown, env), p.line, p.column);
    }
  }

  /** Page down and page up keep a valid cursor valid. */
  lemma PageKeysKeepCursorValid(st: State, key: Key, env: Env)
    requires env.vHeight >= 1 && CursorValid(st)
    requires key in {KeyNPage, KeyPPage}
    ensures Step(st, key, env).Next? && CursorValid(Step(st, key, env).st)
  {
    var s, p := st.text, st.p;
    match key
    case KeyNPage =>
      KeyNPageMoves(st, env);
      var line := Min(p.line + env.vHeight, LineCount(s));
      OnLineIsValid(st, Step(st, key, env), line, Min(p.oldColumn, LineLen(s, line)));
    case KeyPPage =>
      KeyPPageMoves(st, env);
      var line := if p.line < env.vHeight then 0 else p.line - env.vHeight;
      OnLineIsValid(st, Step(st, key, env), line, Min(p.oldColumn, LineLen(s, line)));
  }

  /** A step that keeps the content and lands on an existing line, no
      further right than that line's length, leaves a valid cursor. */
  lemma OnLineIsValid(st: State, r: Outcome, line: nat, column: nat)
    requires r.Next? && r.st.text == st.text && r.st.p.line == line && r.st.p.column == column
    requires line <= LineCount(st.text) && column <= LineLen(st.text, line)
    ensures CursorValid(r.st)
  {
  }

  /** With the selection off, every key keeps a valid cursor valid, or ends
      the loop, or (backspace or delete at (0, 0)) reaches buf_delete
      outside its contract. */
  lemma StepKeepsCursorValid(st: State, key: Key, env: Env)
    requires env.vHeight >= 1 && !st.p.selOn && CursorValid(st)
    ensures var r := Step(st, key, env);
      && (r.Next? ==> CursorValid(r.st))
      && (r.Quit? <==> key == Byte(17))
      && (r.Undefined? <==> (key == KeyBackspace || key == KeyDc) && st.p.Cursor() == Pos(0, 0))
  {
    match key
    case Byte(code) =>
      QuitAndIgnoredCodes(st, code, env);
      if IsTyped(code) || code == 10 {
        if env.insertOk {
          TypingInsertsAtCursor(st, code, env);
        } else {
          FailedInsertOnlyDeletesSelection(st, code, env);
        }
      } else if code == 20 {
        ToggleAnchorsAtCursor(st, env);
      } else if code == 24 || code == 3 {
        ClipboardKeysWithoutSelection(st, env);
      }
    case KeyBackspace =>
      if st.p.Cursor() == Pos(0, 0) {
        BackspaceAtOriginUndefined(st, env);
      } else {
        BackspaceRemovesPrevious(st, env);
      }
    case KeyDc =>
      DeleteKeysAgree(st, env);
      if st.p.Cursor() == Pos(0, 0) {
        BackspaceAtOriginUndefined(st, env);
      } else {
        BackspaceRemovesPrevious(st, env);
      }
    case KeyLeft => HorizontalKeepsCursorValid(st, key, env);
    case KeyRight => HorizontalKeepsCursorValid(st, key, env);
    case KeyHome => HorizontalKeepsCursorValid(st, key, env);
    case KeyEnd => HorizontalKeepsCursorValid(st, key, env);
    case KeyUp => UpKeepsCursorValid(st, env);
    case KeyDown => DownKeepsCursorValid(st, env);
    case KeyNPage => PageKeysKeepCursorValid(st, key, env);
    case KeyPPage => PageKeysKeepCursorValid(st, key, env);
  }
}
