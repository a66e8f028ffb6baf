/**
 The pointer (cursor, sticky column, selection anchor) and the selection it
 describes over the content: which bytes are selected, how many, and what
 remains once they are deleted.
 */
module Selection {
  import opened Lines

  /** Cursor at (line, column); `oldColumn` is the sticky column restored
      by vertical moves; the anchor (selLine, selColumn) is meaningful only
      while `selOn` holds. */
  datatype Pointer = Pointer(
    line: nat, column: nat, oldColumn: nat,
    selOn: bool, selLine: nat, selColumn: nat)
  {
    function Cursor(): Pos { Pos(line, column) }
    function Anchor(): Pos { Pos(selLine, selColumn) }
  }

  /** The lexicographically smaller and larger selection endpoints. */
  function Lo(p: Pointer): Pos {
    if Before(p.Anchor(), p.Cursor()) then p.Anchor() else p.Cursor()
  }

  function Hi(p: Pointer): Pos {
    if Before(p.Anchor(), p.Cursor()) then p.Cursor() else p.Anchor()
  }

  /** The pointer with cursor and anchor exchanged. */
  function Swap(p: Pointer): Pointer {
    p.(line := p.selLine, column := p.selColumn, selLine := p.line, selColumn := p.column)
  }

  /** Whether (line, column) lies in the inclusive range between cursor and
      anchor, in whichever order they stand. */
  function IsSelected(p: Pointer, line: nat, column: nat): (b: bool)
    ensures b <==> p.selOn && !Before(Pos(line, column), Lo(p)) && !Before(Hi(p), Pos(line, column))
  {
    p.selOn &&
    ((LineCmp(p.line, p.column, line, column) >= 0 &&
      LineCmp(p.selLine, p.selColumn, line, column) <= 0) ||
     (LineCmp(p.line, p.column, line, column) <= 0 &&
      LineCmp(p.selLine, p.selColumn, line, column) >= 0))
  }

  /** is_selected where plain `char` is unsigned: a result of -1 reads as
      255, so `<= 0` holds only for equal positions and `>= 0` always, and
      only the two endpoints themselves are selected. */
  function IsSelectedUnsignedChar(p: Pointer, line: nat, column: nat): (b: bool)
    ensures b <==> p.selOn && (Pos(line, column) == p.Cursor() || Pos(line, column) == p.Anchor())
  {
    p.selOn &&
    ((LineCmpUnsignedChar(p.line, p.column, line, column) >= 0 &&
      LineCmpUnsignedChar(p.selLine, p.selColumn, line, column) <= 0) ||
     (LineCmpUnsignedChar(p.line, p.column, line, column) <= 0 &&
      LineCmpUnsignedChar(p.selLine, p.selColumn, line, column) >= 0))
  }

  /** The two readings differ: with the cursor at (0, 2) and the anchor at
      (0, 0), the position (0, 1) between them is selected only when plain
      `char` is signed. */
  lemma UnsignedCharDropsInterior()
    ensures IsSelected(Pointer(0, 2, 2, true, 0, 0), 0, 1)
    ensures !IsSelectedUnsignedChar(Pointer(0, 2, 2, true, 0, 0), 0, 1)
  {
  }

  /** Nothing is selected while the selection is off; the selection does
      not depend on which endpoint is the cursor; both endpoints are
      selected. */
  lemma IsSelectedProperties(p: Pointer, line: nat, column: nat)
    ensures !p.selOn ==> !IsSelected(p, line, column)
    ensures IsSelected(Swap(p), line, column) == IsSelected(p, line, column)
    ensures p.selOn ==> IsSelected(p, p.line, p.column) && IsSelected(p, p.selLine, p.selColumn)
  {
  }

  /** Whether the byte at offset `i` is selected, judged by its coordinate. */
  predicate SelectedAt(s: seq<char>, p: Pointer, i: nat)
    requires i < |s|
  {
    IsSelected(p, CoordAt(s, i).line, CoordAt(s, i).column)
  }

  /** The selected bytes form one contiguous run: between two selected
      bytes every byte is selected. */
  lemma SelectionContiguous(s: seq<char>, p: Pointer, i: nat, j: nat, k: nat)
    requires i <= j <= k < |s|
    requires SelectedAt(s, p, i) && SelectedAt(s, p, k)
    ensures SelectedAt(s, p, j)
  {
    CoordOrder(s, i, j);
    CoordOrder(s, j, k);
  }

  /** First selected offset at or after `offset`, or |s|. */
  function FirstSelected(s: seq<char>, p: Pointer, offset: nat): (a: nat)
    requires offset <= |s|
    ensures offset <= a <= |s|
    ensures forall i :: offset <= i < a ==> !SelectedAt(s, p, i)
    ensures a < |s| ==> SelectedAt(s, p, a)
    decreases |s| - offset
  {
    if offset == |s| || SelectedAt(s, p, offset) then offset
    else FirstSelected(s, p, offset + 1)
  }

  /** First unselected offset at or after `offset`, or |s|. */
  function FirstUnselected(s: seq<char>, p: Pointer, offset: nat): (b: nat)
    requires offset <= |s|
    ensures offset <= b <= |s|
    ensures forall i :: offset <= i < b ==> SelectedAt(s, p, i)
    ensures b < |s| ==> !SelectedAt(s, p, b)
    decreases |s| - offset
  {
    if offset == |s| || !SelectedAt(s, p, offset) then offset
    else FirstUnselected(s, p, offset + 1)
  }

  /** Start and end of the selected run. */
  function SelStart(s: seq<char>, p: Pointer): nat {
    FirstSelected(s, p, 0)
  }

  function SelEnd(s: seq<char>, p: Pointer): nat {
    FirstUnselected(s, p, SelStart(s, p))
  }

  /** The selected offsets are exactly [SelStart, SelEnd). */
  lemma SelectionIsRun(s: seq<char>, p: Pointer)
    ensures SelStart(s, p) <= SelEnd(s, p) <= |s|
    ensures forall i :: 0 <= i < |s| ==> (SelectedAt(s, p, i) <==> SelStart(s, p) <= i < SelEnd(s, p))
  {
    var a, b := SelStart(s, p), SelEnd(s, p);
    forall i | b <= i < |s|
      ensures !SelectedAt(s, p, i)
    {
      if SelectedAt(s, p, i) {
        assert a < b;
        SelectionContiguous(s, p, a, b, i);
      }
    }
  }

  /** Number of selected offsets in [0, i). */
  function CountSelected(s: seq<char>, p: Pointer, i: nat): nat
    requires i <= |s|
  {
    if i == 0 then 0
    else CountSelected(s, p, i - 1) + (if SelectedAt(s, p, i - 1) then 1 else 0)
  }

  /** The loop of buf_sel_length: walks the content keeping the coordinate
      `v` of `offset` up to date and counts the selected bytes. */
  function SelLengthScan(s: seq<char>, p: Pointer, offset: nat, v: Pos, len: nat): (n: nat)
    requires offset <= |s| && v == CoordAt(s, offset)
    requires len == CountSelected(s, p, offset)
    ensures n == CountSelected(s, p, |s|)
    decreases |s| - offset
  {
    if offset < |s| then
      SelLengthScan(s, p, offset + 1, Advance(v, s[offset]),
                    if IsSelected(p, v.line, v.column) then len + 1 else len)
    else len
  }

  /** Length of the selection. */
  function SelLength(s: seq<char>, p: Pointer): (n: nat) {
    SelLengthScan(s, p, 0, Pos(0, 0), 0)
  }

  /** The count of selected offsets below `i` against the run. */
  lemma {:induction false} CountSelectedRun(s: seq<char>, p: Pointer, i: nat)
    requires i <= |s|
    ensures var a, b := SelStart(s, p), SelEnd(s, p);
      CountSelected(s, p, i) == if i <= a then 0 else if i <= b then i - a else b - a
  {
    SelectionIsRun(s, p);
    if i > 0 {
      CountSelectedRun(s, p, i - 1);
    }
  }

  /** The selection length is the length of the selected run, and zero when
      the selection is off. */
  lemma SelLengthIsRun(s: seq<char>, p: Pointer)
    ensures SelLength(s, p) == SelEnd(s, p) - SelStart(s, p)
    ensures !p.selOn ==> SelLength(s, p) == 0
  {
    CountSelectedRun(s, p, |s|);
    SelectionIsRun(s, p);
  }

  /** The bytes of s[..i] whose coordinate is not selected, in order. */
  function Kept(s: seq<char>, p: Pointer, i: nat): seq<char>
    requires i <= |s|
  {
    if i == 0 then []
    else Kept(s, p, i - 1) + (if SelectedAt(s, p, i - 1) then [] else [s[i - 1]])
  }

  /** One step of Kept, judged by the coordinate the scan has reached. */
  lemma KeptNext(s: seq<char>, p: Pointer, i: nat, v: Pos)
    requires i < |s| && v == CoordAt(s, i)
    ensures Kept(s, p, i + 1) == Kept(s, p, i) + (if IsSelected(p, v.line, v.column) then [] else [s[i]])
  {
  }

  /** One step of Kept, judged by the run bounds instead of coordinates. */
  lemma KeptStep(s: seq<char>, p: Pointer, i: nat)
    requires 0 < i <= |s|
    ensures var a, b := SelStart(s, p), SelEnd(s, p);
      Kept(s, p, i) == Kept(s, p, i - 1) + (if a <= i - 1 < b then [] else [s[i - 1]])
  {
    SelectionIsRun(s, p);
  }

  /** s[..i] with the run [a, b) cut out. */
  function Splice(s: seq<char>, a: nat, b: nat, i: nat): seq<char>
    requires a <= b <= |s| && i <= |s|
  {
    if i <= a then s[..i] else if i <= b then s[..a] else s[..a] + s[b..i]
  }

  /** Extending the prefix by one byte extends the splice by that byte
      unless it lies in the cut run. */
  lemma SpliceStep(s: seq<char>, a: nat, b: nat, i: nat)
    requires a <= b <= |s| && 0 < i <= |s|
    ensures Splice(s, a, b, i) == Splice(s, a, b, i - 1) + (if a <= i - 1 < b then [] else [s[i - 1]])
  {
    if i <= a {
      assert s[..i] == s[..i - 1] + [s[i - 1]];
    } else if i > b {
      if i - 1 == b {
        assert s[b..i] == [s[i - 1]];
      } else {
        assert s[b..i] == s[b..i - 1] + [s[i - 1]];
      }
    }
  }

  /** Filtering out the selected bytes cuts the selected run out of the
      content. */
  lemma {:induction false} KeptIsSplice(s: seq<char>, p: Pointer, i: nat)
    requires i <= |s|
    ensures SelStart(s, p) <= SelEnd(s, p) <= |s|
    ensures Kept(s, p, i) == Splice(s, SelStart(s, p), SelEnd(s, p), i)
  {
    if i > 0 {
      KeptIsSplice(s, p, i - 1);
      KeptStep(s, p, i);
      SpliceStep(s, SelStart(s, p), SelEnd(s, p), i);
    }
  }

  /** Over the whole content, the unselected bytes are the content with the
      selected run cut out. */
  lemma KeptAll(s: seq<char>, p: Pointer)
    ensures Kept(s, p, |s|) == s[..SelStart(s, p)] + s[SelEnd(s, p)..]
  {
    KeptIsSplice(s, p, |s|);
    var a, b := SelStart(s, p), SelEnd(s, p);
    if b == |s| {
      assert s[b..] == [];
      if a == |s| {
        assert s[..|s|] == s[..a] + s[b..];
      }
    } else {
      assert s[b..|s|] == s[b..];
    }
  }

  /** The content and pointer after an edit. */
  datatype Edit = Edit(text: seq<char>, p: Pointer)

  /** buf_sel_delete: with the selection on, removes every byte whose
      coordinate before the deletion is selected, moves the cursor to the
      smaller endpoint and turns the selection off. The sticky column and
      the anchor fields are left as they were. */
  function SelDelete(s: seq<char>, p: Pointer): (r: Edit)
    ensures !p.selOn ==> r == Edit(s, p)
    ensures p.selOn ==>
      && r.text == s[..SelStart(s, p)] + s[SelEnd(s, p)..]
      && |r.text| == |s| - SelLength(s, p)
      && r.p.Cursor() == Lo(p)
      && !r.p.selOn
      && r.p.oldColumn == p.oldColumn
  {
    if !p.selOn then Edit(s, p)
    else
      KeptAll(s, p);
      SelLengthIsRun(s, p);
      var q := if LineCmp(p.line, p.column, p.selLine, p.selColumn) > 0
               then p.(line := p.selLine, column := p.selColumn) else p;
      Edit(Kept(s, p, |s|), q.(selOn := false))
  }
}
