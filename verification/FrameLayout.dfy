/** Frames laid out by chained offsets: each field starts where the previous one ends. */
module FrameLayout {
  import opened Bytes

  /** Where field `k` starts; with `k == |widths|`, where the frame ends. */
  function Offset(base: nat, widths: seq<nat>, k: nat): nat
    requires k <= |widths|
  {
    if k == 0 then base else Offset(base, widths, k - 1) + widths[k - 1]
  }

  lemma {:induction false} OffsetsGrow(base: nat, widths: seq<nat>, i: nat, j: nat)
    requires i <= j <= |widths|
    ensures Offset(base, widths, i) <= Offset(base, widths, j)
    ensures i < j ==> Offset(base, widths, i) + widths[i] <= Offset(base, widths, j)
    decreases j
  {
    if i == j {
    } else {
      OffsetsGrow(base, widths, i, j - 1);
    }
  }

  ghost predicate Covers(base: nat, widths: seq<nat>, k: int, position: nat) {
    0 <= k < |widths| && Offset(base, widths, k) <= position < Offset(base, widths, k) + widths[k]
  }

  lemma {:induction false} FindRegion(base: nat, widths: seq<nat>, n: nat, position: nat) returns (k: int)
    requires n <= |widths| && base <= position < Offset(base, widths, n)
    ensures Covers(base, widths, k, position)
    decreases n
  {
    if position < Offset(base, widths, n - 1) {
      k := FindRegion(base, widths, n - 1, position);
    } else {
      k := n - 1;
    }
  }

  /** The regions tile the frame body: every byte of it belongs to exactly one field, and no other byte to any. */
  lemma RegionsTile(base: nat, widths: seq<nat>, position: nat)
    ensures base <= position < Offset(base, widths, |widths|) <==> exists k :: Covers(base, widths, k, position)
    ensures forall i, j :: Covers(base, widths, i, position) && Covers(base, widths, j, position) ==> i == j
  {
    forall i, j | Covers(base, widths, i, position) && Covers(base, widths, j, position)
      ensures i == j
    {
      if i < j { OffsetsGrow(base, widths, i, j); }
      if j < i { OffsetsGrow(base, widths, j, i); }
    }
    if k :| Covers(base, widths, k, position) {
      OffsetsGrow(base, widths, 0, k);
      OffsetsGrow(base, widths, k, |widths|);
    }
    if base <= position < Offset(base, widths, |widths|) {
      var k := FindRegion(base, widths, |widths|, position);
    }
  }

  /** Every piece fits its field. */
  ghost predicate Fit(widths: seq<nat>, pieces: seq<seq<Byte>>) {
    |pieces| == |widths| && forall i :: 0 <= i < |pieces| ==> |pieces[i]| <= widths[i]
  }

  /** The buffer after the first `n` pieces have been written at their offsets. */
  ghost function WritePieces(buffer: seq<Byte>, base: nat, widths: seq<nat>,
                             pieces: seq<seq<Byte>>, n: nat): (r: seq<Byte>)
    requires Fit(widths, pieces) && n <= |pieces| && Offset(base, widths, |widths|) <= |buffer|
    ensures |r| == |buffer|
  {
    if n == 0 then buffer
    else
      OffsetsGrow(base, widths, n - 1, |widths|);
      WriteAt(WritePieces(buffer, base, widths, pieces, n - 1), Offset(base, widths, n - 1), pieces[n - 1])
  }

  lemma NextPiece(buffer: seq<Byte>, base: nat, widths: seq<nat>, pieces: seq<seq<Byte>>, n: nat,
                  before: seq<Byte>, after: seq<Byte>)
    requires Fit(widths, pieces) && n < |pieces| && Offset(base, widths, |widths|) <= |buffer|
    requires before == WritePieces(buffer, base, widths, pieces, n)
    requires Offset(base, widths, n) + |pieces[n]| <= |before|
    requires after == WriteAt(before, Offset(base, widths, n), pieces[n])
    ensures after == WritePieces(buffer, base, widths, pieces, n + 1)
  {
  }

  function Region(buffer: seq<Byte>, base: nat, widths: seq<nat>, k: nat): (r: seq<Byte>)
    requires k < |widths| && Offset(base, widths, |widths|) <= |buffer|
    ensures |r| == widths[k]
  {
    OffsetsGrow(base, widths, k, |widths|);
    buffer[Offset(base, widths, k)..Offset(base, widths, k) + widths[k]]
  }

  /** Whatever the buffer held before, the region of a field starts with what was written for it. */
  lemma {:induction false} PieceSurvives(buffer: seq<Byte>, base: nat, widths: seq<nat>,
                                         pieces: seq<seq<Byte>>, n: nat, k: nat)
    requires Fit(widths, pieces) && k < n <= |pieces| && Offset(base, widths, |widths|) <= |buffer|
    ensures pieces[k] <= Region(WritePieces(buffer, base, widths, pieces, n), base, widths, k)
    decreases n
  {
    var before := WritePieces(buffer, base, widths, pieces, n - 1);
    var offset := Offset(base, widths, n - 1);
    OffsetsGrow(base, widths, n - 1, |widths|);
    OffsetsGrow(base, widths, k, |widths|);
    if k == n - 1 {
      var after := WriteAt(before, offset, pieces[k]);
      assert after[offset..offset + |pieces[k]|] == pieces[k];
    } else {
      PieceSurvives(buffer, base, widths, pieces, n - 1, k);
      OffsetsGrow(base, widths, k, n - 1);
      WriteKeepsRegion(before, offset, pieces[n - 1], Offset(base, widths, k), Offset(base, widths, k) + widths[k]);
    }
  }

  /** A write below the body, such as a header field, is invisible to every field. */
  lemma HeaderWriteKeepsRegion(buffer: seq<Byte>, base: nat, widths: seq<nat>, k: nat, offset: nat, b: seq<Byte>)
    requires k < |widths| && Offset(base, widths, |widths|) <= |buffer| && offset + |b| <= base
    ensures offset + |b| <= |buffer|
    ensures Region(WriteAt(buffer, offset, b), base, widths, k) == Region(buffer, base, widths, k)
  {
    OffsetsGrow(base, widths, 0, k);
    OffsetsGrow(base, widths, k, |widths|);
    WriteKeepsRegion(buffer, offset, b, Offset(base, widths, k), Offset(base, widths, k) + widths[k]);
  }
}
