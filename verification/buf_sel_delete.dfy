/**
 buf_sel_delete on the gap buffer itself: one forward scan that deletes
 each selected byte in place and re-examines the same offset, while the
 coordinate advances over the byte just read (so selection is judged by
 the coordinates the bytes had before any deletion).
 */
module BufSelDelete {
  import opened GapBuffer
  import opened Lines
  import opened Selection

  /** One iteration of the scan, on the content: the byte under the
      offset is s[i]; deleting it (when selected) or stepping over it (when
      not) re-establishes "unselected prefix, then the unread rest". */
  lemma ScanStep(s: seq<char>, p: Pointer, i: nat, v: Pos, c: seq<char>)
    requires i < |s| && v == CoordAt(s, i)
    requires c == Kept(s, p, i) + s[i..]
    ensures |Kept(s, p, i)| < |c| && c[|Kept(s, p, i)|] == s[i]
    ensures IsSelected(p, v.line, v.column) ==>
      && c[..|Kept(s, p, i)|] + c[|Kept(s, p, i)| + 1..] == Kept(s, p, i + 1) + s[i + 1..]
      && |Kept(s, p, i + 1)| == |Kept(s, p, i)|
    ensures !IsSelected(p, v.line, v.column) ==>
      && c == Kept(s, p, i + 1) + s[i + 1..]
      && |Kept(s, p, i + 1)| == |Kept(s, p, i)| + 1
  {
    var kept := Kept(s, p, i);
    assert s[i..] == [s[i]] + s[i + 1..];
    KeptNext(s, p, i, v);
    assert c[..|kept|] == kept;
    assert c[|kept| + 1..] == s[i + 1..];
  }

  /** While bytes remain unread the offset is inside the content; once it
      reaches the end, everything has been read and only the kept bytes
      remain. */
  lemma ScanBounds(s: seq<char>, p: Pointer, i: nat, c: seq<char>)
    requires i <= |s| && c == Kept(s, p, i) + s[i..]
    ensures |Kept(s, p, i)| < |c| <==> i < |s|
    ensures i == |s| ==> c == Kept(s, p, |s|)
  {
    if i == |s| {
      assert s[i..] == [];
    }
  }

  /** One pass of the scan's body: the byte under `offset` is deleted when
      its coordinate `v` is selected and stepped over otherwise. */
  method ScanByte(b: Buf, p: Pointer, offset: nat, v: Pos, ghost s: seq<char>, ghost i: nat)
    returns (r: Buf, next: nat, w: Pos)
    requires b.Valid() && i < |s| && v == CoordAt(s, i)
    requires b.Content() == Kept(s, p, i) + s[i..] && offset == |Kept(s, p, i)|
    ensures r.Valid() && w == CoordAt(s, i + 1)
    ensures r.Content() == Kept(s, p, i + 1) + s[i + 1..] && next == |Kept(s, p, i + 1)|
    ensures r.Len() - next < b.Len() - offset
  {
    ScanStep(s, p, i, v, b.Content());
    var c := b.Get(offset);
    if IsSelected(p, v.line, v.column) {
      r := Delete(b, offset + 1);
      next := offset;
    } else {
      r, next := b, offset + 1;
    }
    w := Advance(v, c);
  }

  /** The scan of buf_sel_delete: leaves exactly the unselected bytes. */
  method DeleteSelected(b: Buf, p: Pointer) returns (r: Buf)
    requires b.Valid()
    ensures r.Valid()
    ensures r.Content() == Kept(b.Content(), p, |b.Content()|)
  {
    ghost var s := b.Content();
    r := b;
    var v := Pos(0, 0);
    var offset := 0;
    ghost var i := 0;
    assert s[0..] == s;
    // The source decrements an unsigned offset after a deletion and relies
    // on the loop increment to undo it; here the offset advances only when
    // nothing was deleted.
    while offset < r.Len()
      invariant r.Valid()
      invariant i <= |s|
      invariant v == CoordAt(s, i)
      invariant r.Content() == Kept(s, p, i) + s[i..]
      invariant offset == |Kept(s, p, i)|
      decreases r.Len() - offset
    {
      ScanBounds(s, p, i, r.Content());
      r, offset, v := ScanByte(r, p, offset, v, s, i);
      i := i + 1;
    }
    ScanBounds(s, p, i, r.Content());
  }

  /** buf_sel_delete: a no-op while the selection is off; otherwise the
      selected run is cut out and the pointer moves to its smaller end with
      the selection off. */
  method SelDeleteBuf(b: Buf, p: Pointer) returns (r: Buf, q: Pointer)
    requires b.Valid()
    ensures r.Valid()
    ensures Edit(r.Content(), q) == SelDelete(b.Content(), p)
    ensures p.selOn ==> r.Content() == b.Content()[..SelStart(b.Content(), p)] + b.Content()[SelEnd(b.Content(), p)..]
    ensures !p.selOn ==> r == b && q == p
  {
    if !p.selOn {
      return b, p;
    }
    r := DeleteSelected(b, p);
    KeptAll(b.Content(), p);
    if LineCmp(p.line, p.column, p.selLine, p.selColumn) > 0 {
      q := p.(line := p.selLine, column := p.selColumn, selOn := false);
    } else {
      q := p.(selOn := false);
    }
  }
}
