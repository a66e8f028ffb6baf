/**
 One iteration of the editor loop, without the terminal: the key-driven
 update of the content, the pointer, the clipboard and the top line of the
 view, followed by the auto-scroll.
 */
module Editor {
  import opened Lines
  import opened Selection
  import opened Clipboard

  /** A key as getch delivers it: a plain code (printable bytes, tab,
      newline and control chords) or one of the ncurses special keys the
      editor reacts to. */
  datatype Key =
    | Byte(code: int)
    | KeyDc | KeyBackspace
    | KeyLeft | KeyRight | KeyUp | KeyDown
    | KeyNPage | KeyPPage | KeyHome | KeyEnd

  /** Editor state carried from one iteration to the next. */
  datatype State = State(text: seq<char>, p: Pointer, vLine: nat, clip: Option<seq<char>>)

  /** What the loop sees that the step cannot compute: the line count the
      last render reported, and the outcomes of the allocations a command
      may attempt. */
  datatype Env = Env(vHeight: nat, insertOk: bool, copyOk: bool)

  /** Result of one iteration. `Undefined` is reached when the source calls
      the buffer outside its contract (seeking past the end, deleting at
      offset 0). `Hang` is reached when the auto-scroll can never end: with
      a view height of 0 its loops step by 0 lines. */
  datatype Outcome = Next(st: State) | Quit | Undefined | Hang

  /** Content after buf_insert at `offset`. */
  function InsertAt(s: seq<char>, offset: nat, c: char): (t: seq<char>)
    requires offset <= |s|
    ensures |t| == |s| + 1 && t[offset] == c
    ensures t[..offset] == s[..offset] && t[offset + 1..] == s[offset..]
  {
    s[..offset] + [c] + s[offset..]
  }

  /** Content after buf_delete(k): the byte at offset k - 1 is removed. */
  function DeleteBefore(s: seq<char>, k: nat): (t: seq<char>)
    requires 1 <= k <= |s|
    ensures |t| == |s| - 1
    ensures t[..k - 1] == s[..k - 1] && t[k - 1..] == s[k..]
  {
    s[..k - 1] + s[k..]
  }

  /** Codes that are inserted as they are: printable ASCII and tab. */
  predicate IsTyped(code: int) {
    (32 <= code <= 126) || code == 9
  }

  /** Whether `code` is the control chord of `letter` (code + 64 == letter). */
  predicate IsCtrl(code: int, letter: char) {
    code + 64 == letter as int
  }

  /** Cursor placed on `line` at the sticky column, clamped to the line. */
  function MoveToLine(s: seq<char>, p: Pointer, line: nat): (q: Pointer)
    ensures q.line == line && q.oldColumn == p.oldColumn
    ensures q.column <= p.oldColumn && q.column <= LineLen(s, line)
    ensures q.column == p.oldColumn || q.column == LineLen(s, line)
    ensures q.selOn == p.selOn && q.Anchor() == p.Anchor()
  {
    var q := p.(line := line, column := p.oldColumn);
    if q.column > LineLen(s, line) then q.(column := LineLen(s, line)) else q
  }

  /** Printable byte, tab or newline, as written: the selection is deleted
      first, then the byte goes in at the offset computed before that
      deletion. */
  function InsertKey(st: State, offset: nat, c: char, ok: bool): Outcome {
    var d := SelDelete(st.text, st.p);
    if !ok then Next(st.(text := d.text, p := d.p))
    else if offset > |d.text| then Undefined
    else
      var p := d.p;
      var q := if c == '\n' then p.(line := p.line + 1, column := 0, oldColumn := 0)
               else p.(column := p.column + 1, oldColumn := p.column + 1);
      Next(st.(text := InsertAt(d.text, offset, c), p := q))
  }

  /** Delete or backspace, as written: the selection is deleted first; then
      the cursor moves left (or to the end of the previous line) and
      buf_delete runs at the offset computed before either change. */
  function Backspace(st: State, offset: nat): Outcome {
    var d := SelDelete(st.text, st.p);
    var p := d.p;
    var q :=
      if p.column != 0 then p.(column := p.column - 1, oldColumn := p.column - 1)
      else if p.line > 0 then
        var len := LineLen(d.text, p.line - 1);
        p.(line := p.line - 1, column := len, oldColumn := len)
      else p;
    if 1 <= offset <= |d.text| then Next(st.(text := DeleteBefore(d.text, offset), p := q))
    else Undefined
  }

  /** The command part of one iteration, before the auto-scroll. `offset`
      and `lineLen` are the cursor offset and line length computed before
      the key was read. */
  function Command(st: State, key: Key, env: Env, offset: nat, lineLen: nat): Outcome {
    var s, p := st.text, st.p;
    match key
    case Byte(code) =>
      if IsTyped(code) then InsertKey(st, offset, code as char, env.insertOk)
      else if code == 10 then InsertKey(st, offset, '\n', env.insertOk)
      else if IsCtrl(code, 'Q') then Quit
      else if IsCtrl(code, 'T') then
        Next(st.(p := p.(selOn := !p.selOn, selLine := p.line, selColumn := p.column)))
      else if IsCtrl(code, 'X') then
        var c := SetCopyBuf(s, p, st.clip, env.copyOk);
        if c.ok then
          var d := SelDelete(s, p);
          Next(st.(text := d.text, p := d.p, clip := c.clip))
        else Next(st.(clip := c.clip))
      else if IsCtrl(code, 'C') then
        Next(st.(clip := SetCopyBuf(s, p, st.clip, env.copyOk).clip))
      else
        // Ctrl-S writes the file (outside this model), Ctrl-P is empty in
        // the source, every other code is ignored.
        Next(st)
    case KeyDc => Backspace(st, offset)
    case KeyBackspace => Backspace(st, offset)
    case KeyLeft =>
      if p.column != 0 then Next(st.(p := p.(column := p.column - 1, oldColumn := p.column - 1)))
      else Next(st)
    case KeyRight =>
      if p.column < lineLen then Next(st.(p := p.(column := p.column + 1, oldColumn := p.column + 1)))
      else Next(st)
    case KeyUp =>
      if p.line != 0 then Next(st.(p := MoveToLine(s, p, p.line - 1))) else Next(st)
    case KeyDown =>
      if p.line < LineCount(s) then Next(st.(p := MoveToLine(s, p, p.line + 1))) else Next(st)
    case KeyNPage =>
      var count := LineCount(s);
      var line := if p.line + env.vHeight > count then count else p.line + env.vHeight;
      Next(st.(p := MoveToLine(s, p, line)))
    case KeyPPage =>
      var line := if env.vHeight > p.line then 0 else p.line - env.vHeight;
      Next(st.(p := MoveToLine(s, p, line)))
    case KeyHome => Next(st.(p := p.(column := 0, oldColumn := 0)))
    case KeyEnd => Next(st.(p := p.(column := lineLen, oldColumn := lineLen)))
  }

  /** `d` is a whole number of views of `height` lines. */
  predicate WholeViews(d: nat, height: nat)
    decreases d
  {
    d == 0 || (height >= 1 && d >= height && WholeViews(d - height, height))
  }

  /** First auto-scroll loop: pages down while the cursor line is at or
      below the bottom of the view. */
  function ScrollDown(vLine: nat, height: nat, line: nat): (r: nat)
    requires height >= 1
    ensures r >= vLine && WholeViews(r - vLine, height)
    ensures line < r + height
    ensures vLine <= line ==> r <= line
    ensures vLine + height > line ==> r == vLine
    decreases if vLine <= line then line - vLine else 0
  {
    if vLine + height <= line then ScrollDown(vLine + height, height, line) else vLine
  }

  /** Second auto-scroll loop: pages up, clamping at 0, while the cursor
      line is above the top of the view. */
  function ScrollUp(vLine: nat, height: nat, line: nat): (r: nat)
    requires height >= 1 && line < vLine + height
    ensures r <= line < r + height
    ensures r <= vLine && (r == 0 || WholeViews(vLine - r, height))
    ensures vLine <= line ==> r == vLine
    decreases vLine
  {
    if vLine > line then ScrollUp(if vLine < height then 0 else vLine - height, height, line)
    else vLine
  }

  /** Auto-scroll: afterwards the cursor line is inside the view; the top
      line moved by whole views in one direction (or was clamped to 0), and
      stayed put when the cursor was already visible. */
  function Scroll(vLine: nat, height: nat, line: nat): (r: nat)
    requires height >= 1
    ensures r <= line < r + height
    ensures vLine <= line ==> r >= vLine && WholeViews(r - vLine, height)
    ensures vLine > line ==> r < vLine && (r == 0 || WholeViews(vLine - r, height))
    ensures vLine <= line < vLine + height ==> r == vLine
  {
    ScrollUp(ScrollDown(vLine, height, line), height, line)
  }

  /** v_line after at most `k` passes of the first auto-scroll loop as
      written: while the cursor line is at or below the bottom of the view,
      add `shift` (the height itself) to the top line. Any height, 0 too. */
  function ScrollDownPasses(vLine: nat, shift: nat, line: nat, k: nat): nat
    decreases k
  {
    if k == 0 || vLine + shift > line then vLine
    else ScrollDownPasses(vLine + shift, shift, line, k - 1)
  }

  /** v_line after at most `k` passes of the second loop as written: while
      the cursor line is above the top of the view, subtract `shift`, or go
      to 0 when the top line is smaller than it. */
  function ScrollUpPasses(vLine: nat, shift: nat, line: nat, k: nat): nat
    decreases k
  {
    if k == 0 || vLine <= line then vLine
    else ScrollUpPasses(if vLine < shift then 0 else vLine - shift, shift, line, k - 1)
  }

  /** With a positive height the first loop has ended after more than
      `line - vLine` passes, where ScrollDown ends. */
  lemma {:induction false} ScrollDownPassesEnd(vLine: nat, height: nat, line: nat, k: nat)
    requires height >= 1 && vLine + k > line
    ensures ScrollDownPasses(vLine, height, line, k) == ScrollDown(vLine, height, line)
    decreases k
  {
    if k > 0 && vLine + height <= line {
      ScrollDownPassesEnd(vLine + height, height, line, k - 1);
    }
  }

  /** With a positive height the second loop has ended after more than
      `vLine - line` passes, where ScrollUp ends. */
  lemma {:induction false} ScrollUpPassesEnd(vLine: nat, height: nat, line: nat, k: nat)
    requires height >= 1 && line < vLine + height && line + k > vLine
    ensures ScrollUpPasses(vLine, height, line, k) == ScrollUp(vLine, height, line)
    decreases k
  {
    if k > 0 && vLine > line {
      ScrollUpPassesEnd(if vLine < height then 0 else vLine - height, height, line, k - 1);
    }
  }

  /** The auto-scroll after a command that continues: the state with its
      top line scrolled to show the cursor line, or `Hang` at height 0. */
  function Settle(t: State, height: nat): (r: Outcome)
    ensures r.Hang? <==> height == 0
    ensures r.Next? ==> r.st == t.(vLine := r.st.vLine) && r.st.vLine <= t.p.line < r.st.vLine + height
  {
    if height == 0 then Hang else Next(t.(vLine := Scroll(t.vLine, height, t.p.line)))
  }

  /** One iteration of the editor loop: offset and line length are taken
      from the state, the key is dispatched, and the view is scrolled by
      the height of the last render. A height of 0 makes the scroll loops
      spin forever, so every command that continues ends in `Hang`. */
  function Step(st: State, key: Key, env: Env): (r: Outcome)
    ensures r.Next? ==> env.vHeight >= 1 && r.st.vLine <= r.st.p.line < r.st.vLine + env.vHeight
  {
    var offset := Line2Offset(st.text, st.p.line, st.p.column);
    var lineLen := LineLen(st.text, st.p.line);
    match Command(st, key, env, offset, lineLen)
    case Next(t) => Settle(t, env.vHeight)
    case other => other
  }

  /** When the command leaves the cursor line inside the view, the step
      is the command's result: the view does not move. */
  lemma StepWithoutScroll(st: State, key: Key, env: Env, t: State)
    requires Command(st, key, env, Line2Offset(st.text, st.p.line, st.p.column), LineLen(st.text, st.p.line)) == Next(t)
    requires t.vLine <= t.p.line < t.vLine + env.vHeight
    ensures Step(st, key, env) == Next(t)
  {
  }

  /** When the command continues with `t`, the step continues with `t`
      scrolled: only the top line of the view can differ. */
  lemma StepOfNext(st: State, key: Key, env: Env, t: State)
    requires env.vHeight >= 1
    requires Command(st, key, env, Line2Offset(st.text, st.p.line, st.p.column), LineLen(st.text, st.p.line)) == Next(t)
    ensures Step(st, key, env) == Next(t.(vLine := Scroll(t.vLine, env.vHeight, t.p.line)))
  {
  }

  /** A printable byte or tab is inserted as that character; newline is
      inserted as '\n'. */
  lemma TypedByteInserts(st: State, code: int, env: Env, offset: nat, lineLen: nat)
    requires IsTyped(code) || code == 10
    ensures Command(st, Byte(code), env, offset, lineLen)
         == InsertKey(st, offset, if code == 10 then '\n' else code as char, env.insertOk)
  {
  }
}
