/** The 32x32 tile comparison of two RGB565 frames. */
module DirtyTiles {
  import opened Base

  const TILE := 32

  type Pixel = x: int | 0 <= x < 0x1_0000

  datatype Rect = Rect(x: int, y: int, width: int, height: int)

  predicate Inside(r: Rect, x: int, y: int) {
    r.x <= x < r.x + r.width && r.y <= y < r.y + r.height
  }

  /** Row-major position of a pixel. */
  function Index(w: nat, x: nat, y: nat): nat { y * w + x }

  lemma IndexInFrame(w: nat, h: nat, x: nat, y: nat)
    requires x < w && y < h
    ensures Index(w, x, y) < w * h
  {
    assert (y + 1) * w <= h * w;
  }

  predicate IsFrame(s: seq<Pixel>, w: nat, h: nat) { |s| == w * h }

  function PixelAt(s: seq<Pixel>, w: nat, h: nat, x: nat, y: nat): Pixel
    requires IsFrame(s, w, h) && x < w && y < h
  {
    IndexInFrame(w, h, x, y);
    s[Index(w, x, y)]
  }

  ghost predicate Differs(a: seq<Pixel>, b: seq<Pixel>, w: nat, h: nat, x: int, y: int)
    requires IsFrame(a, w, h) && IsFrame(b, w, h)
  {
    0 <= x < w && 0 <= y < h && PixelAt(a, w, h, x, y) != PixelAt(b, w, h, x, y)
  }

  ghost predicate Dirty(a: seq<Pixel>, b: seq<Pixel>, w: nat, h: nat, r: Rect)
    requires IsFrame(a, w, h) && IsFrame(b, w, h)
  {
    exists x, y :: Inside(r, x, y) && Differs(a, b, w, h, x, y)
  }

  function Tiles(size: nat): nat { (size + TILE - 1) / TILE }

  function TileRect(w: nat, h: nat, tx: nat, ty: nat): Rect {
    Rect(tx * TILE, ty * TILE, Min(TILE, w - tx * TILE), Min(TILE, h - ty * TILE))
  }

  function Full(w: nat, h: nat): Rect { Rect(0, 0, w, h) }

  /** The dirty ones among the first n tiles of a tile row, left to right. */
  ghost function DirtyInRow(a: seq<Pixel>, b: seq<Pixel>, w: nat, h: nat, ty: nat, n: nat): seq<Rect>
    requires IsFrame(a, w, h) && IsFrame(b, w, h)
  {
    if n == 0 then []
    else
      DirtyInRow(a, b, w, h, ty, n - 1)
      + (if Dirty(a, b, w, h, TileRect(w, h, n - 1, ty)) then [TileRect(w, h, n - 1, ty)] else [])
  }

  ghost function DirtyInRows(a: seq<Pixel>, b: seq<Pixel>, w: nat, h: nat, m: nat): seq<Rect>
    requires IsFrame(a, w, h) && IsFrame(b, w, h)
  {
    if m == 0 then [] else DirtyInRows(a, b, w, h, m - 1) + DirtyInRow(a, b, w, h, m - 1, Tiles(w))
  }

  ghost function AllDirty(a: seq<Pixel>, b: seq<Pixel>, w: nat, h: nat): seq<Rect>
    requires IsFrame(a, w, h) && IsFrame(b, w, h)
  {
    DirtyInRows(a, b, w, h, Tiles(h))
  }

  /** At least 40 percent of the tiles. */
  ghost predicate Collapses(a: seq<Pixel>, b: seq<Pixel>, w: nat, h: nat)
    requires IsFrame(a, w, h) && IsFrame(b, w, h)
  {
    |AllDirty(a, b, w, h)| * 5 >= Tiles(w) * Tiles(h) * 2
  }

  ghost function Collected(previous: Option<seq<Pixel>>, current: seq<Pixel>, w: nat, h: nat): seq<Rect>
    requires w > 0 && h > 0 ==> IsFrame(current, w, h) && (previous.Some? ==> IsFrame(previous.value, w, h))
  {
    if w == 0 || h == 0 then []
    else match previous
      case None => [Full(w, h)]
      case Some(p) => if Collapses(p, current, w, h) then [Full(w, h)] else AllDirty(p, current, w, h)
  }

  /** `CollectDirtyTiles`: tile rows, tiles, pixel rows until the first difference. */
  method CollectDirtyTiles(previous: Option<seq<Pixel>>, current: seq<Pixel>, width: int, height: int)
    returns (tiles: seq<Rect>)
    requires width > 0 && height > 0 ==>
      IsFrame(current, width, height) && (previous.Some? ==> IsFrame(previous.value, width, height))
    ensures tiles == if width > 0 && height > 0 then Collected(previous, current, width, height) else []
  {
    tiles := [];
    if width <= 0 || height <= 0 {
      return;
    }
    if previous.None? {
      return [Rect(0, 0, width, height)];
    }
    var tilesX, tilesY := (width + TILE - 1) / TILE, (height + TILE - 1) / TILE;
    var total := tilesX * tilesY;
    for ty := 0 to tilesY
      invariant tiles == DirtyInRows(previous.value, current, width, height, ty)
    {
      ghost var above := tiles;
      for tx := 0 to tilesX
        invariant tiles == above + DirtyInRow(previous.value, current, width, height, ty, tx)
      {
        var tile := Rect(tx * TILE, ty * TILE, Min(TILE, width - tx * TILE), Min(TILE, height - ty * TILE));
        var dirty := TileDirty(previous.value, current, width, height, tile);
        if dirty {
          tiles := tiles + [tile];
        }
      }
    }
    if |tiles| * 5 >= total * 2 {
      tiles := [Rect(0, 0, width, height)];
    }
  }

  /** The comparison of one tile, a memcmp per pixel row. */
  method TileDirty(previous: seq<Pixel>, current: seq<Pixel>, width: nat, height: nat, tile: Rect) returns (dirty: bool)
    requires IsFrame(previous, width, height) && IsFrame(current, width, height)
    requires 0 <= tile.x && 0 <= tile.y && 0 < tile.width && 0 < tile.height
    requires tile.x + tile.width <= width && tile.y + tile.height <= height
    ensures dirty <==> Dirty(previous, current, width, height, tile)
  {
    dirty := false;
    var row := 0;
    while row < tile.height && !dirty
      invariant 0 <= row <= tile.height
      invariant dirty ==> Dirty(previous, current, width, height, tile)
      invariant !dirty ==> forall x, y :: Inside(tile, x, y) && y < tile.y + row ==> !Differs(previous, current, width, height, x, y)
    {
      var offset := (tile.y + row) * width + tile.x;
      RowInFrame(width, height, tile, row);
      if previous[offset..offset + tile.width] != current[offset..offset + tile.width] {
        RowDiffers(previous, current, width, height, tile, row);
        dirty := true;
      } else {
        RowSame(previous, current, width, height, tile, row);
      }
      row := row + 1;
    }
  }

  lemma RowInFrame(width: nat, height: nat, tile: Rect, row: nat)
    requires 0 <= tile.x && 0 <= tile.y && 0 < tile.width && row < tile.height
    requires tile.x + tile.width <= width && tile.y + tile.height <= height
    ensures 0 <= (tile.y + row) * width + tile.x && (tile.y + row) * width + tile.x + tile.width <= width * height
  {
    IndexInFrame(width, height, tile.x + tile.width - 1, tile.y + row);
  }

  lemma RowDiffers(a: seq<Pixel>, b: seq<Pixel>, w: nat, h: nat, tile: Rect, row: nat)
    requires IsFrame(a, w, h) && IsFrame(b, w, h)
    requires 0 <= tile.x && 0 <= tile.y && 0 < tile.width && row < tile.height
    requires tile.x + tile.width <= w && tile.y + tile.height <= h
    requires var o := (tile.y + row) * w + tile.x;
             0 <= o && o + tile.width <= w * h && a[o..o + tile.width] != b[o..o + tile.width]
    ensures Dirty(a, b, w, h, tile)
  {
    var o := (tile.y + row) * w + tile.x;
    var i :| 0 <= i < tile.width && a[o..o + tile.width][i] != b[o..o + tile.width][i];
    assert Index(w, tile.x + i, tile.y + row) == o + i;
    assert Inside(tile, tile.x + i, tile.y + row) && Differs(a, b, w, h, tile.x + i, tile.y + row);
  }

  lemma RowSame(a: seq<Pixel>, b: seq<Pixel>, w: nat, h: nat, tile: Rect, row: nat)
    requires IsFrame(a, w, h) && IsFrame(b, w, h)
    requires 0 <= tile.x && 0 <= tile.y && 0 < tile.width && row < tile.height
    requires tile.x + tile.width <= w && tile.y + tile.height <= h
    requires var o := (tile.y + row) * w + tile.x;
             0 <= o && o + tile.width <= w * h && a[o..o + tile.width] == b[o..o + tile.width]
    ensures forall x, y :: Inside(tile, x, y) && y == tile.y + row ==> !Differs(a, b, w, h, x, y)
  {
    var o := (tile.y + row) * w + tile.x;
    forall x, y | Inside(tile, x, y) && y == tile.y + row
      ensures !Differs(a, b, w, h, x, y)
    {
      var i := x - tile.x;
      assert Index(w, x, y) == o + i;
      assert a[o..o + tile.width][i] == b[o..o + tile.width][i];
    }
  }

  // ---- what the rectangles mean ----

  /** Raster order; it implies that the rectangles are disjoint. */
  predicate Before(r: Rect, s: Rect) {
    r.y + r.height <= s.y || (r.y == s.y && r.x + r.width <= s.x)
  }

  ghost predicate InBounds(r: Rect, w: nat, h: nat) {
    0 <= r.x && 0 <= r.y && 0 < r.width && 0 < r.height && r.x + r.width <= w && r.y + r.height <= h
  }

  /** A cell of the tile grid. */
  predicate IsTile(w: nat, h: nat, r: Rect) {
    && 0 <= r.x < w && 0 <= r.y < h && r.x % TILE == 0 && r.y % TILE == 0
    && r == TileRect(w, h, r.x / TILE, r.y / TILE)
  }

  ghost predicate Ordered(s: seq<Rect>) {
    forall i, j :: 0 <= i < j < |s| ==> Before(s[i], s[j])
  }

  lemma OrderedConcat(s: seq<Rect>, t: seq<Rect>)
    requires Ordered(s) && Ordered(t) && forall r, u :: r in s && u in t ==> Before(r, u)
    ensures Ordered(s + t)
  {
    forall i, j | 0 <= i < j < |s + t|
      ensures Before((s + t)[i], (s + t)[j])
    {
      if i < |s| <= j { assert s[i] in s && t[j - |s|] in t; }
    }
  }

  lemma TileOf(w: nat, h: nat, tx: nat, ty: nat)
    requires tx < Tiles(w) && ty < Tiles(h)
    ensures var r := TileRect(w, h, tx, ty); IsTile(w, h, r) && InBounds(r, w, h) && r.x / TILE == tx && r.y / TILE == ty
  {
  }

  /** The tiles of a row in front of column n. */
  predicate InRow(w: nat, h: nat, r: Rect, ty: nat, n: nat) {
    IsTile(w, h, r) && r.y == ty * TILE && r.x < n * TILE
  }

  lemma NextInRow(w: nat, h: nat, r: Rect, ty: nat, n: nat)
    requires n < Tiles(w) && ty < Tiles(h)
    ensures InRow(w, h, r, ty, n + 1) <==> InRow(w, h, r, ty, n) || r == TileRect(w, h, n, ty)
    ensures InRow(w, h, r, ty, n) ==> Before(r, TileRect(w, h, n, ty))
  {
    TileOf(w, h, n, ty);
    if InRow(w, h, r, ty, n + 1) && !InRow(w, h, r, ty, n) {
      assert r.x / TILE == n && r.y / TILE == ty;
    }
  }

  /** The collected part of a row is exactly its dirty tiles, in order. */
  lemma {:induction false} RowMembers(a: seq<Pixel>, b: seq<Pixel>, w: nat, h: nat, ty: nat, n: nat)
    requires IsFrame(a, w, h) && IsFrame(b, w, h) && n <= Tiles(w) && ty < Tiles(h)
    ensures forall r :: r in DirtyInRow(a, b, w, h, ty, n) <==> InRow(w, h, r, ty, n) && Dirty(a, b, w, h, r)
    ensures Ordered(DirtyInRow(a, b, w, h, ty, n))
  {
    hide Dirty, TileRect, Before;
    if n > 0 {
      RowMembers(a, b, w, h, ty, n - 1);
      var front, t := DirtyInRow(a, b, w, h, ty, n - 1), TileRect(w, h, n - 1, ty);
      var last := if Dirty(a, b, w, h, t) then [t] else [];
      forall r
        ensures InRow(w, h, r, ty, n) <==> InRow(w, h, r, ty, n - 1) || r == t
        ensures InRow(w, h, r, ty, n - 1) ==> Before(r, t)
      {
        NextInRow(w, h, r, ty, n - 1);
      }
      OrderedConcat(front, last);
      assert forall r :: r in front + last <==> r in front || r in last;
    }
  }

  /** The collected tiles are exactly the dirty ones, in raster order. */
  lemma {:induction false} RowsMembers(a: seq<Pixel>, b: seq<Pixel>, w: nat, h: nat, m: nat)
    requires IsFrame(a, w, h) && IsFrame(b, w, h) && m <= Tiles(h)
    ensures forall r :: r in DirtyInRows(a, b, w, h, m) <==>
              IsTile(w, h, r) && r.y < m * TILE && Dirty(a, b, w, h, r)
    ensures Ordered(DirtyInRows(a, b, w, h, m))
  {
    if m > 0 {
      RowsMembers(a, b, w, h, m - 1);
      RowMembers(a, b, w, h, m - 1, Tiles(w));
      var above, row := DirtyInRows(a, b, w, h, m - 1), DirtyInRow(a, b, w, h, m - 1, Tiles(w));
      forall r, u | r in above && u in row
        ensures Before(r, u)
      {
        RowsApart(w, h, r, m - 1);
      }
      OrderedConcat(above, row);
      forall r
        ensures r in above + row <==> IsTile(w, h, r) && r.y < m * TILE && Dirty(a, b, w, h, r)
      {
        assert r in above + row <==> r in above || r in row;
        if IsTile(w, h, r) { RowsApart(w, h, r, m - 1); }
      }
    }
  }

  lemma RowsApart(w: nat, h: nat, r: Rect, ty: nat)
    requires IsTile(w, h, r)
    ensures r.y < (ty + 1) * TILE <==> r.y < ty * TILE || r.y == ty * TILE
    ensures r.y < ty * TILE ==> r.y + r.height <= ty * TILE
    ensures r.x < Tiles(w) * TILE
  {
  }

  /** Rectangles are in bounds and in raster order, so pairwise disjoint. */
  lemma CollectedInOrder(previous: Option<seq<Pixel>>, current: seq<Pixel>, w: nat, h: nat)
    requires w > 0 && h > 0 && IsFrame(current, w, h) && (previous.Some? ==> IsFrame(previous.value, w, h))
    ensures var s := Collected(previous, current, w, h);
            && (forall r :: r in s ==> InBounds(r, w, h))
            && Ordered(s)
            && (forall i, j, x, y :: 0 <= i < j < |s| && Inside(s[i], x, y) ==> !Inside(s[j], x, y))
  {
    if previous.Some? {
      RowsMembers(previous.value, current, w, h, Tiles(h));
      forall r | IsTile(w, h, r)
        ensures InBounds(r, w, h)
      {
        TileOf(w, h, r.x / TILE, r.y / TILE);
      }
    }
  }

  /** Every changed pixel is covered. */
  lemma CollectedCovers(previous: seq<Pixel>, current: seq<Pixel>, w: nat, h: nat, x: nat, y: nat)
    requires IsFrame(current, w, h) && IsFrame(previous, w, h) && Differs(previous, current, w, h, x, y)
    ensures exists r :: r in Collected(Some(previous), current, w, h) && Inside(r, x, y)
  {
    RowsMembers(previous, current, w, h, Tiles(h));
    var r := TileRect(w, h, x / TILE, y / TILE);
    TileOf(w, h, x / TILE, y / TILE);
    assert Inside(r, x, y) && Dirty(previous, current, w, h, r);
    assert Inside(Full(w, h), x, y);
    assert r in AllDirty(previous, current, w, h);
    if Collapses(previous, current, w, h) {
      assert Full(w, h) in Collected(Some(previous), current, w, h);
    }
  }

  /** A cell of 32 by 32 pixels in which some pixel differs. */
  ghost predicate CellDiffers(a: seq<Pixel>, b: seq<Pixel>, w: nat, h: nat, tx: nat, ty: nat)
    requires IsFrame(a, w, h) && IsFrame(b, w, h)
  {
    exists x: nat, y: nat :: x / 32 == tx && y / 32 == ty && Differs(a, b, w, h, x, y)
  }

  lemma TileIsCell(a: seq<Pixel>, b: seq<Pixel>, w: nat, h: nat, tx: nat, ty: nat)
    requires IsFrame(a, w, h) && IsFrame(b, w, h)
    ensures Dirty(a, b, w, h, TileRect(w, h, tx, ty)) <==> CellDiffers(a, b, w, h, tx, ty)
  {
    hide Differs;
    var r := TileRect(w, h, tx, ty);
    forall x, y
      ensures Differs(a, b, w, h, x, y) ==> (Inside(r, x, y) <==> x / 32 == tx && y / 32 == ty) && 0 <= x && 0 <= y
    {
      DiffersInFrame(a, b, w, h, x, y);
    }
  }

  lemma DiffersInFrame(a: seq<Pixel>, b: seq<Pixel>, w: nat, h: nat, x: int, y: int)
    requires IsFrame(a, w, h) && IsFrame(b, w, h)
    ensures Differs(a, b, w, h, x, y) ==> 0 <= x < w && 0 <= y < h
  {
  }

  ghost function RowCells(a: seq<Pixel>, b: seq<Pixel>, w: nat, h: nat, ty: nat, n: nat): set<(nat, nat)>
    requires IsFrame(a, w, h) && IsFrame(b, w, h)
  {
    set tx: nat | tx < n && CellDiffers(a, b, w, h, tx, ty) :: (tx, ty)
  }

  /** The cells in the first m rows of n that differ. */
  ghost function Cells(a: seq<Pixel>, b: seq<Pixel>, w: nat, h: nat, n: nat, m: nat): set<(nat, nat)>
    requires IsFrame(a, w, h) && IsFrame(b, w, h)
  {
    set tx: nat, ty: nat | tx < n && ty < m && CellDiffers(a, b, w, h, tx, ty) :: (tx, ty)
  }

  lemma {:induction false} RowIsCounted(a: seq<Pixel>, b: seq<Pixel>, w: nat, h: nat, ty: nat, n: nat)
    requires IsFrame(a, w, h) && IsFrame(b, w, h)
    ensures |DirtyInRow(a, b, w, h, ty, n)| == |RowCells(a, b, w, h, ty, n)|
  {
    hide CellDiffers, Dirty;
    if n > 0 {
      RowIsCounted(a, b, w, h, ty, n - 1);
      TileIsCell(a, b, w, h, n - 1, ty);
      var front, tx := RowCells(a, b, w, h, ty, n - 1), n - 1;
      assert RowCells(a, b, w, h, ty, n) == if CellDiffers(a, b, w, h, tx, ty) then front + {(tx, ty)} else front;
    }
  }

  lemma {:induction false} RowsAreCounted(a: seq<Pixel>, b: seq<Pixel>, w: nat, h: nat, m: nat)
    requires IsFrame(a, w, h) && IsFrame(b, w, h)
    ensures |DirtyInRows(a, b, w, h, m)| == |Cells(a, b, w, h, Tiles(w), m)|
  {
    hide CellDiffers, Dirty, DirtyInRow, Tiles;
    if m > 0 {
      hide Cells, RowCells;
      RowsAreCounted(a, b, w, h, m - 1);
      RowIsCounted(a, b, w, h, m - 1, Tiles(w));
      OneMoreRow(a, b, w, h, Tiles(w), m - 1);
    } else {
      assert Cells(a, b, w, h, Tiles(w), 0) == {};
    }
  }

  lemma OneMoreRow(a: seq<Pixel>, b: seq<Pixel>, w: nat, h: nat, n: nat, m: nat)
    requires IsFrame(a, w, h) && IsFrame(b, w, h)
    ensures |Cells(a, b, w, h, n, m + 1)| == |Cells(a, b, w, h, n, m)| + |RowCells(a, b, w, h, m, n)|
  {
    hide CellDiffers;
    var above, row := Cells(a, b, w, h, n, m), RowCells(a, b, w, h, m, n);
    assert above !! row;
    assert Cells(a, b, w, h, n, m + 1) == above + row;
  }

  /** Below 40 percent there is one rectangle for every cell of the grid that differs, as large as the frame
      leaves it; from there on there is one rectangle, the whole frame. */
  lemma CollectedTight(previous: seq<Pixel>, current: seq<Pixel>, w: nat, h: nat)
    requires w > 0 && h > 0 && IsFrame(current, w, h) && IsFrame(previous, w, h)
    ensures var s, columns, rows := Collected(Some(previous), current, w, h), (w + 31) / 32, (h + 31) / 32;
            var dirty := |Cells(previous, current, w, h, columns, rows)|;
            if dirty * 100 >= columns * rows * 40 then s == [Rect(0, 0, w, h)]
            else |s| == dirty && forall r :: r in s ==>
                   && r.x % 32 == 0 && 0 <= r.x < w && r.width == (if r.x + 32 <= w then 32 else w - r.x)
                   && r.y % 32 == 0 && 0 <= r.y < h && r.height == (if r.y + 32 <= h then 32 else h - r.y)
                   && CellDiffers(previous, current, w, h, r.x / 32, r.y / 32)
  {
    hide CellDiffers, Dirty, DirtyInRows, Cells;
    RowsMembers(previous, current, w, h, Tiles(h));
    RowsAreCounted(previous, current, w, h, Tiles(h));
    forall r | r in AllDirty(previous, current, w, h)
      ensures IsTile(w, h, r) && CellDiffers(previous, current, w, h, r.x / 32, r.y / 32)
    {
      TileIsCell(previous, current, w, h, r.x / 32, r.y / 32);
    }
  }

  lemma EmptyOrMember(s: seq<Rect>)
    ensures s == [] || exists r :: r in s
  {
    if s != [] { assert s[0] in s; }
  }

  /** Equal frames give no rectangle at all, and only they do. */
  lemma CollectedEmptyIffEqual(previous: seq<Pixel>, current: seq<Pixel>, w: nat, h: nat)
    requires w > 0 && h > 0 && IsFrame(current, w, h) && IsFrame(previous, w, h)
    ensures Collected(Some(previous), current, w, h) == [] <==> previous == current
  {
    RowsMembers(previous, current, w, h, Tiles(h));
    if previous == current {
      EmptyOrMember(AllDirty(previous, current, w, h));
      assert Tiles(w) * Tiles(h) >= 1;
    } else {
      var x, y := DifferenceAt(previous, current, w, h);
      CollectedCovers(previous, current, w, h, x, y);
    }
  }

  /** Different frames differ at some coordinates. */
  lemma DifferenceAt(a: seq<Pixel>, b: seq<Pixel>, w: nat, h: nat) returns (x: nat, y: nat)
    requires IsFrame(a, w, h) && IsFrame(b, w, h) && a != b && w > 0
    ensures Differs(a, b, w, h, x, y)
  {
    var i :| 0 <= i < |a| && a[i] != b[i];
    x, y := i % w, i / w;
    assert i == y * w + x;
    assert y >= h ==> y * w >= h * w;
  }

  /** The rectangles are a faithful difference: repainting just them turns the old frame into the new. */
  lemma PatchIsCurrent(previous: seq<Pixel>, current: seq<Pixel>, w: nat, h: nat, patched: seq<Pixel>)
    requires w > 0 && h > 0 && IsFrame(current, w, h) && IsFrame(previous, w, h) && IsFrame(patched, w, h)
    requires forall x: nat, y: nat :: x < w && y < h ==>
      PixelAt(patched, w, h, x, y) ==
      if exists r :: r in Collected(Some(previous), current, w, h) && Inside(r, x, y)
      then PixelAt(current, w, h, x, y) else PixelAt(previous, w, h, x, y)
    ensures patched == current
  {
    if patched != current {
      var x, y := DifferenceAt(patched, current, w, h);
      if Differs(previous, current, w, h, x, y) {
        CollectedCovers(previous, current, w, h, x, y);
      }
    }
  }

  // ---- the threshold ----

  /** A 160 by 32 frame, black but for the given positions: five tiles in one row. */
  function Dotted(dots: set<nat>): seq<Pixel> {
    seq(160 * 32, i => if i in dots then 1 else 0)
  }

  lemma DotsDiffer(x: int, y: int)
    ensures Differs(Dotted({}), Dotted({0, 32}), 160, 32, x, y) <==> y == 0 && (x == 0 || x == 32)
  {
    if 0 <= x < 160 && 0 <= y < 32 {
      IndexInFrame(160, 32, x, y);
    }
  }

  /** Which of the five tiles differ. */
  lemma DotsInTile(tx: nat)
    requires tx < 5
    ensures Dirty(Dotted({}), Dotted({0, 32}), 160, 32, TileRect(160, 32, tx, 0)) <==> tx < 2
  {
    var r := TileRect(160, 32, tx, 0);
    DotsDiffer(tx * 32, 0);
    assert Inside(r, tx * 32, 0);
    forall x, y | Inside(r, x, y)
      ensures Differs(Dotted({}), Dotted({0, 32}), 160, 32, x, y) ==> tx < 2
    {
      DotsDiffer(x, y);
    }
  }

  /** The comment promises a collapse above 40 percent; two tiles of five are exactly 40, and collapse. */
  lemma FortyPercentCollapses()
    ensures var a, b := Dotted({}), Dotted({0, 32});
            && IsFrame(a, 160, 32) && IsFrame(b, 160, 32)
            && |AllDirty(a, b, 160, 32)| * 100 == Tiles(160) * Tiles(32) * 40
            && Collected(Some(a), b, 160, 32) == [Full(160, 32)]
  {
    hide Dirty, Dotted;
    var a, b := Dotted({}), Dotted({0, 32});
    FramesOfDots();
    forall tx: nat | tx < 5
      ensures Dirty(a, b, 160, 32, TileRect(160, 32, tx, 0)) <==> tx < 2
    {
      DotsInTile(tx);
    }
    assert DirtyInRow(a, b, 160, 32, 0, 0) == [];
    assert |DirtyInRow(a, b, 160, 32, 0, 1)| == 1;
    assert |DirtyInRow(a, b, 160, 32, 0, 2)| == 2;
    assert |DirtyInRow(a, b, 160, 32, 0, 3)| == 2;
    assert |DirtyInRow(a, b, 160, 32, 0, 4)| == 2;
    assert |DirtyInRow(a, b, 160, 32, 0, 5)| == 2;
    assert DirtyInRows(a, b, 160, 32, 0) == [];
  }

  lemma FramesOfDots()
    ensures IsFrame(Dotted({}), 160, 32) && IsFrame(Dotted({0, 32}), 160, 32)
  {
  }
}
