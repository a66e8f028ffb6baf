/**
 The gap buffer that stores the text being edited.

 One physical array of capacity `buflen` holds a first section at
 `[0, firstLen)` and a second section at `[buflen - secondLen, buflen)`;
 the slack between them is the gap. The logical content is the first
 section followed by the second. The array is modelled as a sequence that
 is updated one cell at a time, exactly where the editor writes into it.
 */
module GapBuffer {

  /** Growth step of the physical array when the gap is full. */
  const BUFSIZE: nat := 4096

  datatype Buf = Buf(buflen: nat, data: seq<char>, firstLen: nat, secondLen: nat) {

    /** The two sections fit in the array and do not overlap. */
    predicate Valid() {
      |data| == buflen && firstLen + secondLen <= buflen
    }

    /** Abstraction function: the logical content, first section then second. */
    function Content(): seq<char>
      requires Valid()
    {
      data[..firstLen] + data[buflen - secondLen..]
    }

    /** Number of logical bytes. */
    function Len(): (n: nat)
      requires Valid()
      ensures n == |Content()|
    {
      firstLen + secondLen
    }

    /** The byte at a logical offset, read through the physical index mapping. */
    function Get(offset: nat): (c: char)
      requires Valid() && offset < Len()
      ensures c == Content()[offset]
    {
      if offset >= firstLen then data[(buflen - secondLen) + (offset - firstLen)]
      else data[offset]
    }
  }

  /** Moves the gap so that the first section is `offset` bytes long,
      shifting one byte across the gap per iteration. */
  method Seek(b: Buf, offset: nat) returns (r: Buf)
    requires b.Valid() && offset <= b.Len()
    ensures r.Valid()
    ensures r.Content() == b.Content()
    ensures r.buflen == b.buflen
    ensures r.firstLen == offset
    ensures r.firstLen + r.secondLen == b.firstLen + b.secondLen
  {
    r := b;
    // Move the excess of the first section to the front of the second.
    while r.firstLen > offset
      invariant r.Valid() && r.buflen == b.buflen
      invariant r.firstLen + r.secondLen == b.firstLen + b.secondLen
      invariant r.Content() == b.Content()
      decreases r.firstLen
    {
      var f, s, n := r.firstLen, r.secondLen, r.buflen;
      ShiftBackKeepsContent(r);
      r := Buf(n, r.data[n - s - 1 := r.data[f - 1]], f - 1, s + 1);
    }
    // Move the excess of the second section to the end of the first.
    while r.firstLen < offset
      invariant r.Valid() && r.buflen == b.buflen
      invariant r.firstLen <= offset
      invariant r.firstLen + r.secondLen == b.firstLen + b.secondLen
      invariant r.Content() == b.Content()
      decreases offset - r.firstLen
    {
      var f, s, n := r.firstLen, r.secondLen, r.buflen;
      ShiftForwardKeepsContent(r);
      r := Buf(n, r.data[f := r.data[n - s]], f + 1, s - 1);
    }
  }

  /** Copying the last byte of the first section to just before the second
      section and moving the boundary keeps the content. */
  lemma ShiftBackKeepsContent(r: Buf)
    requires r.Valid() && r.firstLen > 0
    ensures var f, s, n := r.firstLen, r.secondLen, r.buflen;
      var q := Buf(n, r.data[n - s - 1 := r.data[f - 1]], f - 1, s + 1);
      q.Valid() && q.Content() == r.Content()
  {
    var f, s, n := r.firstLen, r.secondLen, r.buflen;
    var x := r.data[f - 1];
    var d := r.data[n - s - 1 := x];
    var q := Buf(n, d, f - 1, s + 1);
    assert d[..f - 1] == r.data[..f - 1];
    assert d[n - s..] == r.data[n - s..];
    assert d[n - s - 1..] == [x] + r.data[n - s..];
    assert r.data[..f] == r.data[..f - 1] + [x];
    calc {
      q.Content();
      d[..f - 1] + d[n - s - 1..];
      r.data[..f - 1] + ([x] + r.data[n - s..]);
      (r.data[..f - 1] + [x]) + r.data[n - s..];
      r.Content();
    }
  }

  /** Copying the first byte of the second section to just after the first
      section and moving the boundary keeps the content. */
  lemma ShiftForwardKeepsContent(r: Buf)
    requires r.Valid() && r.secondLen > 0
    ensures var f, s, n := r.firstLen, r.secondLen, r.buflen;
      var q := Buf(n, r.data[f := r.data[n - s]], f + 1, s - 1);
      q.Valid() && q.Content() == r.Content()
  {
    var f, s, n := r.firstLen, r.secondLen, r.buflen;
    var x := r.data[n - s];
    var d := r.data[f := x];
    var q := Buf(n, d, f + 1, s - 1);
    assert d[..f] == r.data[..f];
    assert d[..f + 1] == r.data[..f] + [x];
    assert d[n - s + 1..] == r.data[n - s + 1..];
    assert r.data[n - s..] == [x] + r.data[n - s + 1..];
    calc {
      q.Content();
      d[..f + 1] + d[n - s + 1..];
      (r.data[..f] + [x]) + r.data[n - s + 1..];
      r.data[..f] + ([x] + r.data[n - s + 1..]);
      r.Content();
    }
  }

  /** Enlarges a full array by BUFSIZE and relocates the second section to
      the new end, copying from the top down. The bytes that realloc adds
      are unspecified; they are modelled as NUL and never read. */
  method Grow(b: Buf) returns (r: Buf)
    requires b.Valid() && b.Len() == b.buflen
    ensures r.Valid()
    ensures r.buflen == b.buflen + BUFSIZE
    ensures r.firstLen == b.firstLen && r.secondLen == b.secondLen
    ensures r.Content() == b.Content()
  {
    var n := b.buflen + BUFSIZE;
    var grown := b.data + seq(BUFSIZE, _ => 0 as char);
    assert forall j :: 0 <= j < b.buflen ==> grown[j] == b.data[j];
    var d := grown;
    var i := 1;
    while i <= b.secondLen
      invariant 1 <= i <= b.secondLen + 1
      invariant |d| == n
      invariant forall j :: 0 <= j <= n - i ==> d[j] == grown[j]
      invariant forall j :: n - i < j < n ==> d[j] == b.data[j - BUFSIZE]
    {
      var src := n - i - BUFSIZE;
      assert d[src] == b.data[src];
      d := d[n - i := d[src]];
      i := i + 1;
    }
    r := Buf(n, d, b.firstLen, b.secondLen);
    SplitEqual(r, b);
  }

  /** After relocation the two sections read the same as before. */
  lemma SplitEqual(r: Buf, b: Buf)
    requires b.Valid() && r.Valid()
    requires r.firstLen == b.firstLen && r.secondLen == b.secondLen
    requires forall j :: 0 <= j < r.firstLen ==> r.data[j] == b.data[j]
    requires forall j :: r.buflen - r.secondLen <= j < r.buflen ==>
               r.data[j] == b.data[j - (r.buflen - b.buflen)]
    requires b.buflen <= r.buflen
    ensures r.Content() == b.Content()
  {
    SamePrefix(r.data, b.data, r.firstLen);
    SameSuffix(r.data, b.data, r.secondLen);
  }

  /** Sequences that agree index by index below `m` have the same prefix of
      length `m`. */
  lemma SamePrefix(x: seq<char>, y: seq<char>, m: nat)
    requires m <= |x| && m <= |y|
    requires forall j :: 0 <= j < m ==> x[j] == y[j]
    ensures x[..m] == y[..m]
  {
    assert forall j :: 0 <= j < m ==> x[..m][j] == y[..m][j];
  }

  /** A sequence whose last `m` elements are those of a shorter one,
      shifted by the difference in length, has the same suffix of length
      `m`. */
  lemma SameSuffix(x: seq<char>, y: seq<char>, m: nat)
    requires m <= |y| <= |x|
    requires forall j :: |x| - m <= j < |x| ==> x[j] == y[j - (|x| - |y|)]
    ensures x[|x| - m..] == y[|y| - m..]
  {
    var sx, sy := x[|x| - m..], y[|y| - m..];
    forall t | 0 <= t < m
      ensures sx[t] == sy[t]
    {
      assert sx[t] == x[|x| - m + t];
    }
  }

  /** Inserts byte `c` at logical `offset`, growing the array first when the
      gap is empty. `allocOk` is the outcome of that allocation; a failed
      allocation leaves the buffer as it was. */
  method Insert(b: Buf, offset: nat, c: char, allocOk: bool) returns (r: Buf, ok: bool)
    requires b.Valid() && offset <= b.Len()
    ensures r.Valid()
    ensures ok <==> (b.Len() < b.buflen || allocOk)
    ensures !ok ==> r == b
    ensures ok ==> r.Content() == b.Content()[..offset] + [c] + b.Content()[offset..]
    ensures ok ==> r.buflen == (if b.Len() == b.buflen then b.buflen + BUFSIZE else b.buflen)
  {
    r := b;
    if r.buflen == r.Len() {
      if !allocOk {
        return b, false;
      }
      r := Grow(r);
    }
    r := Seek(r, offset);
    var f := r.firstLen;
    var d := r.data[f := c];
    assert d[..f + 1] == r.data[..f] + [c];
    assert d[r.buflen - r.secondLen..] == r.data[r.buflen - r.secondLen..];
    r := Buf(r.buflen, d, f + 1, r.secondLen);
    ok := true;
  }

  /** Seeks to `k` and drops the last byte of the first section: the byte
      removed is the one at logical offset `k - 1`. With `k == 0` the
      unsigned first length would wrap, so `k` must be at least 1. */
  method Delete(b: Buf, k: nat) returns (r: Buf)
    requires b.Valid() && 1 <= k <= b.Len()
    ensures r.Valid()
    ensures r.buflen == b.buflen
    ensures r.Content() == b.Content()[..k - 1] + b.Content()[k..]
    ensures r.Len() == b.Len() - 1
  {
    var t := Seek(b, k);
    assert t.data[..k] == t.data[..k - 1] + [t.data[k - 1]];
    r := Buf(t.buflen, t.data, k - 1, t.secondLen);
  }
}
