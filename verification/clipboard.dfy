/**
 Copying bytes out of the buffer (buf_copy) and replacing the clipboard
 with the current selection (set_copy_buf).
 */
module Clipboard {
  import opened Lines
  import opened Selection

  /** The clipboard: absent before the first copy and after a failed one. */
  datatype Option<T> = None | Some(value: T)

  /** Outcome of buf_copy. `OutOfRange` is the early NULL return without an
      error; `NoMemory` is a failed allocation; `Overrun` marks a write past
      the allocation (undefined behaviour in the source). */
  datatype CopyResult = Copied(bytes: seq<char>) | OutOfRange | NoMemory | Overrun

  /** buf_copy as its comment describes it: the `len` bytes starting at
      `offset`, or a failure. `allocOk` is the outcome of the allocation. */
  function BufCopy(s: seq<char>, offset: nat, len: nat, allocOk: bool): (r: CopyResult)
    ensures r == OutOfRange <==> offset + len > |s|
    ensures r == NoMemory <==> offset + len <= |s| && !allocOk
    ensures r.Copied? ==> |r.bytes| == len && s[..offset] + r.bytes + s[offset + len..] == s
    ensures offset + len <= |s| && allocOk ==> r == Copied(s[offset..offset + len])
  {
    if offset + len > |s| then OutOfRange
    else if !allocOk then NoMemory
    else
      assert s[..offset] + s[offset..offset + len] + s[offset + len..] == s;
      Copied(s[offset..offset + len])
  }

  /** buf_copy as written: the copy loop stores byte `i` at clip_buf[i] for
      i in [offset, offset + len), into an allocation of only `len` bytes,
      so every non-empty copy from a non-zero offset writes past the end. */
  function BufCopyAsWritten(s: seq<char>, offset: nat, len: nat, allocOk: bool): (r: CopyResult)
    ensures r != Overrun ==> r == BufCopy(s, offset, len, allocOk)
    ensures offset == 0 ==> r == BufCopy(s, offset, len, allocOk)
  {
    if offset + len > |s| then OutOfRange
    else if !allocOk then NoMemory
    else if len > 0 && offset + len - 1 >= len then Overrun
    else Copied(s[offset..offset + len])
  }

  /** The as-written copy overruns its allocation exactly when the intended
      copy would return a non-empty range from a non-zero offset. */
  lemma BufCopyAsWrittenOverruns(s: seq<char>, offset: nat, len: nat)
    requires 0 < offset && 0 < len && offset + len <= |s|
    ensures BufCopyAsWritten(s, offset, len, true) == Overrun
    ensures BufCopy(s, offset, len, true) == Copied(s[offset..offset + len])
  {
  }

  /** Offset where the selection's smaller endpoint lies. */
  function SelOffset(s: seq<char>, p: Pointer): nat {
    if LineCmp(p.line, p.column, p.selLine, p.selColumn) <= 0
    then Line2Offset(s, p.line, p.column)
    else Line2Offset(s, p.selLine, p.selColumn)
  }

  /** The new clipboard and whether the copy succeeded. */
  datatype ClipResult = ClipResult(clip: Option<seq<char>>, ok: bool)

  /** set_copy_buf as written: the old clipboard is freed first, so a failed
      copy leaves no clipboard at all. */
  function SetCopyBuf(s: seq<char>, p: Pointer, previous: Option<seq<char>>, allocOk: bool): (r: ClipResult)
    ensures !r.ok ==> r.clip == None
    ensures r.ok ==> r.clip.Some? && |r.clip.value| == SelLength(s, p)
  {
    match BufCopy(s, SelOffset(s, p), SelLength(s, p), allocOk)
    case Copied(t) => ClipResult(Some(t), true)
    case _ => ClipResult(None, false)
  }

  /** set_copy_buf with the old clipboard kept on failure. */
  function SetCopyBufKeeping(s: seq<char>, p: Pointer, previous: Option<seq<char>>, allocOk: bool): (r: ClipResult)
    ensures !r.ok ==> r.clip == previous
    ensures r.ok ==> r == SetCopyBuf(s, p, previous, allocOk)
  {
    var r := SetCopyBuf(s, p, previous, allocOk);
    if r.ok then r else ClipResult(previous, false)
  }

  /** A failed allocation loses a previously held clipboard in the source,
      but not in the corrected version. */
  lemma SetCopyBufLosesClipboard(s: seq<char>, p: Pointer, held: seq<char>)
    ensures SetCopyBuf(s, p, Some(held), false).clip == None
    ensures SetCopyBufKeeping(s, p, Some(held), false).clip == Some(held)
  {
    SelLengthIsRun(s, p);
  }

  /** When the smaller endpoint names a real coordinate, its offset is the
      first selected offset. */
  lemma SelOffsetIsSelStart(s: seq<char>, p: Pointer)
    requires p.selOn && ValidPos(s, Lo(p))
    ensures SelOffset(s, p) == SelStart(s, p)
  {
    var lo := Lo(p);
    var r := Line2Offset(s, lo.line, lo.column);
    ValidPosReached(s, lo);
    assert SelOffset(s, p) == r;
    var a := SelStart(s, p);
    if r < |s| {
      assert SelectedAt(s, p, r);
    }
    if a < r {
      CoordOrder(s, a, r);
    }
  }

  /** Copying a selection whose smaller endpoint is a real coordinate puts
      exactly the selected run on the clipboard. */
  lemma CopyIsSelectedRun(s: seq<char>, p: Pointer, previous: Option<seq<char>>)
    requires p.selOn && ValidPos(s, Lo(p))
    ensures SetCopyBuf(s, p, previous, true) == ClipResult(Some(s[SelStart(s, p)..SelEnd(s, p)]), true)
  {
    SelOffsetIsSelStart(s, p);
    SelLengthIsRun(s, p);
    SelectionIsRun(s, p);
  }

  /** Cut then paste at the start of the cut restores the content: the
      clipboard holds exactly what the selection delete removes. */
  lemma CutThenPasteRestores(s: seq<char>, p: Pointer, previous: Option<seq<char>>)
    requires p.selOn && ValidPos(s, Lo(p))
    ensures var c := SetCopyBuf(s, p, previous, true);
      var t := SelDelete(s, p).text;
      var a := SelStart(s, p);
      c.ok && c.clip.Some? && a <= |t| && t[..a] + c.clip.value + t[a..] == s
  {
    CopyIsSelectedRun(s, p, previous);
    SelectionIsRun(s, p);
    CutRestores(s, SelStart(s, p), SelEnd(s, p));
  }

  /** Putting s[a..b] back where it was cut out gives s again. */
  lemma CutRestores(s: seq<char>, a: nat, b: nat)
    requires a <= b <= |s|
    ensures var t := s[..a] + s[b..];
      a <= |t| && t[..a] + s[a..b] + t[a..] == s
  {
    var t := s[..a] + s[b..];
    assert t[..a] == s[..a];
    assert t[a..] == s[b..];
    assert s[..a] + s[a..b] + s[b..] == s;
  }

  /** With the selection off nothing is selected: a successful copy puts an
      empty clipboard. */
  lemma CopyWithoutSelection(s: seq<char>, p: Pointer, previous: Option<seq<char>>)
    requires !p.selOn
    ensures SetCopyBuf(s, p, previous, true) == ClipResult(Some([]), true)
  {
    SelLengthIsRun(s, p);
  }
}
