/** The map raster: Y flip, four cells per byte in version 0, one labelled byte per cell in version 1. */
module MapRaster {
  import opened Arithmetic
  import opened Bytes

  type Code = c: int | 0 <= c < 4

  const WALL: Code := 1
  const UNKNOWN: Code := 3

  // PixelToTuyaPixel
  function PixelToTuya(p: int8): Code {
    if p >= 60 then WALL else if p >= 45 then UNKNOWN else if p >= 0 then 0 else UNKNOWN
  }

  // MarRoomIdToTuya and TuyaRoomIdToMars
  function RoomId(id: int): int {
    -(id + 10)
  }

  predicate IsRoom(p: int8) {
    -40 <= p <= -10
  }

  // PixelToTuyaPixelv1
  function PixelToTuyaV1(p: int8): byte {
    if p == -1 then UNKNOWN
    else if p >= 60 then WALL
    else if p < 60 && p >= 45 then UNKNOWN
    else if IsRoom(p) then ToByte(RoomId(p) * 4)
    else UNKNOWN
  }

  /** The classes of cells: obstacles from 60 on, free floor from 0 to 44, all others unknown. */
  lemma ClassIff(p: int8)
    ensures PixelToTuya(p) == 1 <==> p >= 60
    ensures PixelToTuya(p) == 0 <==> 0 <= p < 45
    ensures PixelToTuya(p) == 3 <==> p < 0 || 45 <= p < 60
  {}

  /** Room cells and only they get a multiple of four, four times their number counted from 0 for -10, from which the
      cell is recovered; obstacles get 1 and all others 3. */
  lemma RoomLabelIff(p: int8)
    ensures IsRoom(p) <==> -40 <= p <= -10
    ensures IsRoom(p) <==> PixelToTuyaV1(p) % 4 == 0
    ensures IsRoom(p) ==> PixelToTuyaV1(p) == 4 * (-10 - p) && RoomId(PixelToTuyaV1(p) / 4) == p
    ensures !IsRoom(p) <==> PixelToTuyaV1(p) == 1 || PixelToTuyaV1(p) == 3
    ensures PixelToTuyaV1(p) == 1 <==> p >= 60
  {}

  // ---- the flip ----

  // Where cell i of a w x h grid goes when the rows are reversed.
  function FlipIndex(w: nat, h: nat, i: nat): (j: nat)
    requires i < w * h
    ensures j < w * h
  {
    CellInGrid(w, h, i);
    (h - 1 - i / w) * w + i % w
  }

  lemma CellInGrid(w: nat, h: nat, i: nat)
    requires i < w * h
    ensures w > 0
    ensures i / w < h
    ensures 0 <= (h - 1 - i / w) * w + i % w < w * h
  {
    var row, x := i / w, i % w;
    if row >= h {
      Monotone(h, row, w);
    }
    Monotone(0, h - 1 - row, w);
    Monotone(h - row, h, w);
  }

  /** The flip is its own inverse, hence sends each cell to exactly one place. */
  lemma FlipInvolution(w: nat, h: nat, i: nat)
    requires i < w * h
    ensures FlipIndex(w, h, FlipIndex(w, h, i)) == i
  {
    CellInGrid(w, h, i);
    RowColumn(w, h - 1 - i / w, i % w);
    assert i == (i / w) * w + i % w;
  }

  // Cells of the vector beyond the grid are left zero by the resize.
  function Flipped(w: nat, h: nat, cells: seq<int8>): (r: seq<int8>)
    requires w * h <= |cells|
    ensures |r| == |cells|
  {
    seq(|cells|, i requires 0 <= i < |cells| => if i < w * h then cells[FlipIndex(w, h, i)] else 0)
  }

  /** A vector longer than its grid ends in zeros. */
  lemma SurplusIsZero(w: nat, h: nat, cells: seq<int8>, i: nat)
    requires w * h <= i < |cells|
    ensures Flipped(w, h, cells)[i] == 0
  {}

  /** Flipping a grid twice restores it. */
  lemma FlippedTwice(w: nat, h: nat, cells: seq<int8>)
    requires w * h == |cells|
    ensures Flipped(w, h, Flipped(w, h, cells)) == cells
  {
    forall i | 0 <= i < |cells|
      ensures Flipped(w, h, Flipped(w, h, cells))[i] == cells[i]
    {
      FlipInvolution(w, h, i);
    }
  }

  lemma FlipOfCell(w: nat, h: nat, y: nat, x: nat)
    requires y < h && x < w
    ensures 0 <= y * w + x < w * h && 0 <= (h - y - 1) * w + x < w * h
    ensures FlipIndex(w, h, (h - y - 1) * w + x) == y * w + x
    ensures ((h - y - 1) * w + x) / w == h - y - 1 && ((h - y - 1) * w + x) % w == x
  {
    assert 0 <= y * w && (y + 1) * w <= h * w;
    var up := h - y - 1;
    assert 0 <= up * w && (up + 1) * w <= h * w;
    RowColumn(w, up, x);
  }

  // Cells already written when the loops stand at (y, x).
  predicate Placed(w: nat, h: nat, y: nat, x: nat, i: nat) {
    i < w * h && w > 0 && (i / w >= h - y || (i / w == h - y - 1 && i % w < x))
  }

  ghost predicate Filled(data: seq<int8>, target: seq<int8>, w: nat, h: nat, y: nat, x: nat) {
    && |data| == |target|
    && forall i :: 0 <= i < |data| ==> data[i] == if Placed(w, h, y, x, i) then target[i] else 0
  }

  lemma FilledStep(data: seq<int8>, target: seq<int8>, w: nat, h: nat, y: nat, x: nat, k: nat)
    requires w * h <= |data| && y < h && x < w && k == (h - y - 1) * w + x < w * h
    requires Filled(data, target, w, h, y, x)
    ensures Filled(data[k := target[k]], target, w, h, y, x + 1)
  {
    FlipOfCell(w, h, y, x);
    forall i | 0 <= i < |data|
      ensures Placed(w, h, y, x + 1, i) <==> Placed(w, h, y, x, i) || i == k
    {
      assert w > 0 ==> i == (i / w) * w + i % w;
    }
  }

  lemma FilledRow(data: seq<int8>, target: seq<int8>, w: nat, h: nat, y: nat)
    requires Filled(data, target, w, h, y, w) && y < h
    ensures Filled(data, target, w, h, y + 1, 0)
  {
    forall i | 0 <= i < |data|
      ensures Placed(w, h, y + 1, 0, i) <==> Placed(w, h, y, w, i)
    {
      assert w > 0 ==> i % w < w;
    }
  }

  lemma FilledEnds(target: seq<int8>, w: nat, h: nat, i: nat)
    ensures !Placed(w, h, 0, 0, i)
    ensures Placed(w, h, h, 0, i) <==> i < w * h
  {
    if i < w * h {
      CellInGrid(w, h, i);
    }
  }

  // The double loop of ToTuyaMap over a zero-initialised vector.
  method FlipY(w: nat, h: nat, cells: seq<int8>) returns (data: array<int8>)
    requires w * h <= |cells|
    ensures fresh(data) && data[..] == Flipped(w, h, cells)
  {
    data := new int8[|cells|](_ => 0);
    ghost var target := Flipped(w, h, cells);
    forall i: nat {
      FilledEnds(target, w, h, i);
    }
    for y := 0 to h
      invariant Filled(data[..], target, w, h, y, 0)
    {
      for x := 0 to w
        invariant Filled(data[..], target, w, h, y, x)
      {
        FlipOfCell(w, h, y, x);
        ghost var before, k := data[..], (h - y - 1) * w + x;
        FilledStep(before, target, w, h, y, x, k);
        data[(h - y - 1) * w + x] := cells[y * w + x];
        assert data[..] == before[k := target[k]];
      }
      FilledRow(data[..], target, w, h, y);
    }
    assert data[..] == target;
  }

  // ---- packing ----

  function Codes(cells: seq<int8>): (codes: seq<Code>)
    ensures |codes| == |cells|
  {
    seq(|cells|, i requires 0 <= i < |cells| => PixelToTuya(cells[i]))
  }

  function CodeAt(codes: seq<Code>, i: nat): Code {
    if i < |codes| then codes[i] else UNKNOWN
  }

  // The value of `r` in Combine4Pixel after n of its four shift-and-or steps.
  function Shifted(codes: seq<Code>, i: nat, n: nat): (r: nat)
    requires n <= 4
    ensures n == 0 ==> r < 1
    ensures n == 1 ==> r < 4
    ensures n == 2 ==> r < 16
    ensures n == 3 ==> r < 64
    ensures r < 256
  {
    if n == 0 then 0 else Shifted(codes, i, n - 1) * 4 + CodeAt(codes, i + n - 1)
  }

  function PackAll(codes: seq<Code>): (pixels: seq<byte>)
    ensures |pixels| == (|codes| + 3) / 4
  {
    seq((|codes| + 3) / 4, k requires 0 <= k => Shifted(codes, 4 * k, 4))
  }

  // Two bits of a byte, most significant pair first.
  function Pair(b: byte, k: nat): Code
    requires k < 4
  {
    if k == 0 then b / 64 else if k == 1 then b / 16 % 4 else if k == 2 then b / 4 % 4 else b % 4
  }

  function Unpack(pixels: seq<byte>): (codes: seq<Code>)
    ensures |codes| == 4 * |pixels|
  {
    seq(4 * |pixels|, j requires 0 <= j < 4 * |pixels| => Pair(pixels[j / 4], j % 4))
  }

  lemma PairOfQuad(codes: seq<Code>, i: nat, k: nat)
    requires k < 4
    ensures Pair(Shifted(codes, i, 4), k) == CodeAt(codes, i + k)
  {
    var a, b, c, d := CodeAt(codes, i), CodeAt(codes, i + 1), CodeAt(codes, i + 2), CodeAt(codes, i + 3);
    assert Shifted(codes, i, 1) as int == a;
    assert Shifted(codes, i, 2) as int == (a as int) * 4 + b;
    assert Shifted(codes, i, 3) as int == ((a as int) * 4 + b) * 4 + c;
    PairsOf(a, b, c, d, Shifted(codes, i, 4));
  }

  lemma PairsOf(a: Code, b: Code, c: Code, d: Code, v: byte)
    requires v as int == (((a as int) * 4 + b) * 4 + c) * 4 + d
    ensures Pair(v, 0) == a && Pair(v, 1) == b && Pair(v, 2) == c && Pair(v, 3) == d
  {}

  /** Packing loses nothing: unpacking gives back every code, followed only by 3-padding of the last byte. */
  lemma UnpackInvertsPack(codes: seq<Code>)
    ensures |Unpack(PackAll(codes))| < |codes| + 4
    ensures forall j :: 0 <= j < |Unpack(PackAll(codes))| ==> Unpack(PackAll(codes))[j] == CodeAt(codes, j)
  {
    forall j | 0 <= j < |Unpack(PackAll(codes))|
      ensures Unpack(PackAll(codes))[j] == CodeAt(codes, j)
    {
      PairOfQuad(codes, 4 * (j / 4), j % 4);
    }
  }

  lemma ShiftStep(codes: seq<Code>, i: nat, n: nat)
    requires n < 4
    ensures ToByte(Shifted(codes, i, n) * 4) + CodeAt(codes, i + n) == Shifted(codes, i, n + 1)
  {}

  // Combine4Pixel on the `len` cells from data[i]
  method Combine4Pixel(data: array<int8>, i: nat, len: nat) returns (r: byte)
    requires len <= 4 && i + len <= data.Length
    requires len < 4 ==> i + len == data.Length
    ensures r == Shifted(Codes(data[..]), i, 4)
  {
    ghost var codes := Codes(data[..]);
    r := 0;
    for k := 0 to len
      invariant r == Shifted(codes, i, k)
    {
      ShiftStep(codes, i, k);
      r := ToByte(r * 4) + PixelToTuya(data[i + k]);
    }
    for k := len to 4
      invariant r == Shifted(codes, i, k)
    {
      ShiftStep(codes, i, k);
      r := ToByte(r * 4) + UNKNOWN;
    }
  }

  /** Four codes in one byte, the first in the two highest bits. */
  lemma QuadValue(codes: seq<Code>, i: nat)
    ensures Shifted(codes, i, 4) ==
            64 * CodeAt(codes, i) + 16 * CodeAt(codes, i + 1) + 4 * CodeAt(codes, i + 2) + CodeAt(codes, i + 3)
    ensures forall k :: k >= |codes| ==> CodeAt(codes, k) == 3
  {
    assert Shifted(codes, i, 1) as int == CodeAt(codes, i);
    assert Shifted(codes, i, 2) as int == Shifted(codes, i, 1) as int * 4 + CodeAt(codes, i + 1);
    assert Shifted(codes, i, 3) as int == Shifted(codes, i, 2) as int * 4 + CodeAt(codes, i + 2);
  }

  // pix_len of the header
  function PixLen(version: int, w: nat, h: nat): nat {
    if version == 0 then (w * h + 3) / 4 else w * h
  }

  // ToTuyaMap, version 0, up to the compression step
  method PackMap(w: nat, h: nat, cells: seq<int8>) returns (pixels: seq<byte>)
    requires w * h <= |cells|
    ensures pixels == PackAll(Codes(Flipped(w, h, cells)))
  {
    var data := FlipY(w, h, cells);
    ghost var flat := data[..];
    ghost var codes := Codes(flat);
    pixels := [];
    var i := 0;
    while i < data.Length
      invariant data[..] == flat
      invariant i == 4 * |pixels| && i < data.Length + 4
      invariant forall k :: 0 <= k < |pixels| ==> pixels[k] == Shifted(codes, 4 * k, 4)
    {
      var len := if data.Length - i >= 4 then 4 else data.Length - i;
      var r := Combine4Pixel(data, i, len);
      pixels := pixels + [r];
      i := i + 4;
    }
  }

  // ToTuyaMap, version 1
  method LabelMap(w: nat, h: nat, cells: seq<int8>) returns (pixels: seq<byte>)
    requires w * h <= |cells|
    ensures |pixels| == |cells|
    ensures forall i :: 0 <= i < |cells| ==> pixels[i] == PixelToTuyaV1(Flipped(w, h, cells)[i])
  {
    var data := FlipY(w, h, cells);
    pixels := [];
    for i := 0 to data.Length
      invariant |pixels| == i
      invariant forall k :: 0 <= k < i ==> pixels[k] == PixelToTuyaV1(data[k])
    {
      pixels := pixels + [PixelToTuyaV1(data[i])];
    }
    assert forall i :: 0 <= i < |cells| ==> data[..][i] == data[i];
  }

  // The code an uploaded map shows for a cell.
  predicate ShowsCell(code: Code, p: int8) {
    (code == 1 <==> p >= 60) && (code == 0 <==> 0 <= p < 45) && (code == 3 <==> p < 0 || 45 <= p < 60)
  }

  /** Version 0, every grid: the class of each cell is read back at its flipped position, everything after the
      grid is padding, and the number of bytes is the pix_len of the header. */
  lemma MapIsLossless(w: nat, h: nat, cells: seq<int8>)
    requires w * h == |cells|
    ensures var pixels := PackAll(Codes(Flipped(w, h, cells)));
            && |pixels| == PixLen(0, w, h) == (w * h + 3) / 4
            && |Unpack(pixels)| < w * h + 4
            && (forall i :: 0 <= i < w * h ==> ShowsCell(Unpack(pixels)[FlipIndex(w, h, i)], cells[i]))
            && (forall j :: w * h <= j < |Unpack(pixels)| ==> Unpack(pixels)[j] == 3)
  {
    var codes := Codes(Flipped(w, h, cells));
    UnpackInvertsPack(codes);
    forall i | 0 <= i < w * h
      ensures ShowsCell(Unpack(PackAll(codes))[FlipIndex(w, h, i)], cells[i])
    {
      FlipInvolution(w, h, i);
      ClassIff(cells[i]);
    }
  }

  /** The cell in row y and column x is shown in row h - 1 - y, same column. */
  lemma CellIsShown(w: nat, h: nat, cells: seq<int8>, y: nat, x: nat)
    requires w * h == |cells| && y < h && x < w
    ensures 0 <= y * w + x < w * h && 0 <= (h - y - 1) * w + x < w * h
    ensures ShowsCell(Unpack(PackAll(Codes(Flipped(w, h, cells))))[(h - y - 1) * w + x], cells[y * w + x])
    ensures Flipped(w, h, cells)[(h - y - 1) * w + x] == cells[y * w + x]
  {
    FlipOfCell(w, h, y, x);
    ShownAt(w, h, cells, y * w + x, (h - y - 1) * w + x);
  }

  lemma ShownAt(w: nat, h: nat, cells: seq<int8>, i: nat, j: nat)
    requires w * h == |cells| && i < |cells| && j < |cells| && FlipIndex(w, h, j) == i
    ensures ShowsCell(Unpack(PackAll(Codes(Flipped(w, h, cells))))[j], cells[i]) && Flipped(w, h, cells)[j] == cells[i]
  {
    FlipInvolution(w, h, j);
    MapIsLossless(w, h, cells);
  }

  /** Version 1, every grid: each room cell is recovered exactly at its flipped position, and nothing else
      can be mistaken for a room. */
  lemma RoomsSurvive(w: nat, h: nat, cells: seq<int8>, pixels: seq<byte>)
    requires w * h == |cells| == |pixels|
    requires forall i :: 0 <= i < |cells| ==> pixels[i] == PixelToTuyaV1(Flipped(w, h, cells)[i])
    ensures |pixels| == PixLen(1, w, h) == w * h
    ensures forall i :: 0 <= i < w * h ==>
              var b := pixels[FlipIndex(w, h, i)];
              && (IsRoom(cells[i]) <==> b % 4 == 0)
              && (IsRoom(cells[i]) ==> RoomId(b / 4) == cells[i])
  {
    forall i | 0 <= i < w * h
      ensures var b := pixels[FlipIndex(w, h, i)];
              (IsRoom(cells[i]) <==> b % 4 == 0) && (IsRoom(cells[i]) ==> RoomId(b / 4) == cells[i])
    {
      FlipInvolution(w, h, i);
      RoomLabelIff(cells[i]);
    }
  }
}
