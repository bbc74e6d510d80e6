/** What the layout of create_tiff guarantees: the canvas has exactly the
    documented size, every image gets its own cell inside the grid, every image
    lies inside the canvas with a padding margin, neighbouring images are one
    cell and one padding apart, and no two images overlap. */
module GridLemmas {
  import opened Grid

  /** The canvas is perRow columns and ceil(count / perRow) rows of
      maxWidth x maxHeight cells, with padding around and between them,
      where maxWidth and maxHeight are the largest width and height. */
  lemma {:induction false} CanvasSize(images: seq<Size>, perRow: nat, padding: nat,
                                      maxWidth: nat, maxHeight: nat, rows: nat)
    requires perRow >= 1 && |images| > 0
    requires forall k :: 0 <= k < |images| ==> images[k].width <= maxWidth
    requires exists k :: 0 <= k < |images| && images[k].width == maxWidth
    requires forall k :: 0 <= k < |images| ==> images[k].height <= maxHeight
    requires exists k :: 0 <= k < |images| && images[k].height == maxHeight
    requires (rows - 1) * perRow < |images| <= rows * perRow
    ensures Layout(images, perRow, padding).Some?
    ensures Layout(images, perRow, padding).value.width == maxWidth * perRow + padding * (perRow + 1)
    ensures Layout(images, perRow, padding).value.height == maxHeight * rows + padding * (rows + 1)
  {
    CeilingUnique(|images|, perRow, rows, NumRows(|images|, perRow));
  }

  /** Every image gets a row below the row count; its column is below perRow
      by the contract of DivMod. */
  lemma {:induction false} CellInGrid(count: nat, perRow: nat, i: nat)
    requires perRow >= 1 && i < count
    ensures DivMod(i, perRow).0 < NumRows(count, perRow)
  {
    var row := DivMod(i, perRow).0;
    MulLessCancel(row, NumRows(count, perRow), perRow);
  }

  /** Distinct images get distinct cells. */
  lemma {:induction false} CellsDistinct(perRow: nat, i: nat, j: nat)
    requires perRow >= 1 && i != j
    ensures DivMod(i, perRow) != DivMod(j, perRow)
  {
  }

  /** On the last row, the column of every image is below the number of
      images that row holds. */
  lemma {:induction false} LastRowColumns(count: nat, perRow: nat, i: nat)
    requires perRow >= 1 && i < count
    requires DivMod(i, perRow).0 == NumRows(count, perRow) - 1
    ensures DivMod(i, perRow).1 < LastRowCount(count, perRow)
  {
    var n := NumRows(count, perRow);
    assert i == (n - 1) * perRow + DivMod(i, perRow).1;
    assert (n - 1) * perRow + LastRowCount(count, perRow) == count;
  }

  /** Image i sits col spans from the left edge, shifted by its row's
      offset, and row spans from the top edge. */
  lemma PositionBySpans(images: seq<Size>, perRow: nat, padding: nat, i: nat)
    requires perRow >= 1 && i < |images|
    ensures Position(images, perRow, padding, i).x
              == Span(MaxWidth(images), DivMod(i, perRow).1, padding)
                 + Offset(images, perRow, padding, DivMod(i, perRow).0)
    ensures Position(images, perRow, padding, i).y == Span(MaxHeight(images), DivMod(i, perRow).0, padding)
  {
  }

  /** Image i keeps at least padding from the left and right edges. */
  lemma {:induction false} InsideHorizontally(images: seq<Size>, perRow: nat, padding: nat, i: nat)
    requires perRow >= 1 && i < |images|
    ensures padding <= Position(images, perRow, padding, i).x
    ensures Position(images, perRow, padding, i).x + images[i].width + padding
              <= GridWidth(images, perRow, padding)
  {
    var cell := DivMod(i, perRow);
    var row, col := cell.0, cell.1;
    var w := MaxWidth(images);
    PositionBySpans(images, perRow, padding, i);
    SpanMono(w, 0, col, padding);
    SpanSucc(w, col, padding);
    if row == NumRows(|images|, perRow) - 1 {
      LastRowColumns(|images|, perRow, i);
      SpanMono(w, col + 1, LastRowCount(|images|, perRow), padding);
    } else {
      SpanMono(w, col + 1, perRow, padding);
    }
  }

  /** Image i keeps at least padding from the top and bottom edges. */
  lemma {:induction false} InsideVertically(images: seq<Size>, perRow: nat, padding: nat, i: nat)
    requires perRow >= 1 && i < |images|
    ensures padding <= Position(images, perRow, padding, i).y
    ensures Position(images, perRow, padding, i).y + images[i].height + padding
              <= GridHeight(images, perRow, padding)
  {
    var row := DivMod(i, perRow).0;
    var h := MaxHeight(images);
    PositionBySpans(images, perRow, padding, i);
    CellInGrid(|images|, perRow, i);
    SpanMono(h, 0, row, padding);
    SpanSucc(h, row, padding);
    SpanMono(h, row + 1, NumRows(|images|, perRow), padding);
  }

  /** Every image lies inside the canvas, at least padding away from each edge. */
  lemma {:induction false} PositionInsideCanvas(images: seq<Size>, perRow: nat, padding: nat, i: nat)
    requires perRow >= 1 && i < |images|
    ensures padding <= Position(images, perRow, padding, i).x
    ensures Position(images, perRow, padding, i).x + images[i].width + padding
              <= GridWidth(images, perRow, padding)
    ensures padding <= Position(images, perRow, padding, i).y
    ensures Position(images, perRow, padding, i).y + images[i].height + padding
              <= GridHeight(images, perRow, padding)
  {
    InsideHorizontally(images, perRow, padding, i);
    InsideVertically(images, perRow, padding, i);
  }

  /** The same for the whole layout: every recorded position keeps its image
      inside the canvas. */
  lemma {:induction false} LayoutFitsCanvas(images: seq<Size>, perRow: nat, padding: nat)
    requires perRow >= 1 && |images| > 0
    ensures forall i :: 0 <= i < |images| ==>
      var c := Layout(images, perRow, padding).value;
      padding <= c.positions[i].x && c.positions[i].x + images[i].width + padding <= c.width &&
      padding <= c.positions[i].y && c.positions[i].y + images[i].height + padding <= c.height
  {
    forall i | 0 <= i < |images|
      ensures var c := Layout(images, perRow, padding).value;
        padding <= c.positions[i].x && c.positions[i].x + images[i].width + padding <= c.width &&
        padding <= c.positions[i].y && c.positions[i].y + images[i].height + padding <= c.height
    {
      PositionInsideCanvas(images, perRow, padding, i);
    }
  }

  /** Image i + 1 is in the same row as image i and the next column, unless
      it starts a new row. */
  lemma {:induction false} NextCell(perRow: nat, i: nat)
    requires perRow >= 1 && DivMod(i + 1, perRow).1 != 0
    ensures DivMod(i + 1, perRow) == (DivMod(i, perRow).0, DivMod(i, perRow).1 + 1)
  {
    var cell := DivMod(i, perRow);
    if cell.1 + 1 == perRow {
      assert (cell.0 + 1) * perRow == cell.0 * perRow + perRow;
      DivModUnique(i + 1, perRow, cell.0 + 1, 0);
      assert false;
    }
    DivModUnique(i + 1, perRow, cell.0, cell.1 + 1);
  }

  /** Two consecutive images of one row are one cell width and one padding
      apart, on the same line. */
  lemma {:induction false} ColumnStep(images: seq<Size>, perRow: nat, padding: nat, i: nat)
    requires perRow >= 1 && i + 1 < |images| && DivMod(i + 1, perRow).1 != 0
    ensures Position(images, perRow, padding, i + 1).x
              == Position(images, perRow, padding, i).x + MaxWidth(images) + padding
    ensures Position(images, perRow, padding, i + 1).y == Position(images, perRow, padding, i).y
  {
    NextCell(perRow, i);
    PositionBySpans(images, perRow, padding, i);
    PositionBySpans(images, perRow, padding, i + 1);
    SpanSucc(MaxWidth(images), DivMod(i, perRow).1, padding);
  }

  /** The image below image i is in the next row and the same column, and
      that row exists, so image i is not on the last row. */
  lemma {:induction false} BelowCell(count: nat, perRow: nat, i: nat)
    requires perRow >= 1 && i + perRow < count
    ensures DivMod(i + perRow, perRow) == (DivMod(i, perRow).0 + 1, DivMod(i, perRow).1)
    ensures DivMod(i, perRow).0 + 1 < NumRows(count, perRow)
  {
    var cell := DivMod(i, perRow);
    assert (cell.0 + 1) * perRow == cell.0 * perRow + perRow;
    DivModUnique(i + perRow, perRow, cell.0 + 1, cell.1);
    CellInGrid(count, perRow, i + perRow);
  }

  /** An image and the one below it are one cell height and one padding apart. */
  lemma {:induction false} RowStep(images: seq<Size>, perRow: nat, padding: nat, i: nat)
    requires perRow >= 1 && i + perRow < |images|
    ensures Position(images, perRow, padding, i + perRow).y
              == Position(images, perRow, padding, i).y + MaxHeight(images) + padding
  {
    BelowCell(|images|, perRow, i);
    PositionBySpans(images, perRow, padding, i);
    PositionBySpans(images, perRow, padding, i + perRow);
    SpanSucc(MaxHeight(images), DivMod(i, perRow).0, padding);
  }

  /** Only the row offset moves an image sideways relative to the image above
      it: rows above the last are never shifted. */
  lemma {:induction false} RowShift(images: seq<Size>, perRow: nat, padding: nat, i: nat)
    requires perRow >= 1 && i + perRow < |images|
    ensures Position(images, perRow, padding, i + perRow).x
              == Position(images, perRow, padding, i).x
                 + Offset(images, perRow, padding, DivMod(i, perRow).0 + 1)
  {
    BelowCell(|images|, perRow, i);
    PositionBySpans(images, perRow, padding, i);
    PositionBySpans(images, perRow, padding, i + perRow);
  }

  /** Two different cells of the grid are separated by at least padding
      along one axis, when cells of one row share one offset. */
  lemma {:induction false} CellsSeparated(w: nat, h: nat, padding: nat,
                                          ri: nat, ci: nat, oi: nat, rj: nat, cj: nat, oj: nat)
    requires (ri, ci) != (rj, cj) && (ri == rj ==> oi == oj)
    ensures Span(w, ci, padding) + oi + w + padding <= Span(w, cj, padding) + oj
         || Span(w, cj, padding) + oj + w + padding <= Span(w, ci, padding) + oi
         || Span(h, ri, padding) + h + padding <= Span(h, rj, padding)
         || Span(h, rj, padding) + h + padding <= Span(h, ri, padding)
  {
    if ri < rj {
      SpanGap(h, ri, rj, padding);
    } else if rj < ri {
      SpanGap(h, rj, ri, padding);
    } else if ci < cj {
      SpanGap(w, ci, cj, padding);
    } else {
      SpanGap(w, cj, ci, padding);
    }
  }

  /** No two images overlap: along one axis they are at least padding apart. */
  lemma {:induction false} PlacementsDisjoint(images: seq<Size>, perRow: nat, padding: nat, i: nat, j: nat)
    requires perRow >= 1 && i < |images| && j < |images| && i != j
    ensures var a, b := Position(images, perRow, padding, i), Position(images, perRow, padding, j);
      a.x + images[i].width + padding <= b.x || b.x + images[j].width + padding <= a.x ||
      a.y + images[i].height + padding <= b.y || b.y + images[j].height + padding <= a.y
  {
    var ci, cj := DivMod(i, perRow), DivMod(j, perRow);
    CellsDistinct(perRow, i, j);
    PositionBySpans(images, perRow, padding, i);
    PositionBySpans(images, perRow, padding, j);
    CellsSeparated(MaxWidth(images), MaxHeight(images), padding,
                   ci.0, ci.1, Offset(images, perRow, padding, ci.0),
                   cj.0, cj.1, Offset(images, perRow, padding, cj.0));
  }

  /** A lone image is not given a one-cell canvas: the canvas is still perRow
      columns wide and the image is centred on it. */
  lemma SingleImageCentred()
    ensures Layout([Size(100, 50)], 4, 10) == Some(Canvas(450, 70, [Point(175, 10)]))
  {
    var images := [Size(100, 50)];
    SingleImageOffset();
    DivModUnique(0, 4, 0, 0);
    var positions := Layout(images, 4, 10).value.positions;
    assert positions[0] == Position(images, 4, 10, 0) == Point(175, 10);
    assert positions == [Point(175, 10)];
  }

  /** The lone image's canvas and the shift of its row. */
  lemma SingleImageOffset()
    ensures GridWidth([Size(100, 50)], 4, 10) == 450
    ensures GridHeight([Size(100, 50)], 4, 10) == 70
    ensures Offset([Size(100, 50)], 4, 10, 0) == 165
  {
    var images := [Size(100, 50)];
    assert MaxWidth(images) == 100 && MaxHeight(images) == 50;
    assert NumRows(1, 4) == 1 && LastRowCount(1, 4) == 1;
    assert LastRowWidth(images, 4, 10) == 120;
  }

  /** Eight equal images in rows of four with no padding fill two full rows:
      the canvas is 200 x 100, no row is shifted, and every image sits at the
      corner of its 50 x 50 cell. */
  lemma FullLastRowNotShifted()
    ensures var images := seq(8, _ => Size(50, 50));
      && Layout(images, 4, 0).Some?
      && Layout(images, 4, 0).value.width == 200
      && Layout(images, 4, 0).value.height == 100
      && Offset(images, 4, 0, 0) == 0 && Offset(images, 4, 0, 1) == 0
      && forall i :: 0 <= i < 8 ==>
           Position(images, 4, 0, i) == Point(50 * DivMod(i, 4).1, 50 * DivMod(i, 4).0)
  {
    var images := seq(8, _ => Size(50, 50));
    assert MaxWidth(images) == 50 && MaxHeight(images) == 50;
    assert NumRows(8, 4) == 2 && LastRowCount(8, 4) == 4;
    forall i | 0 <= i < 8
      ensures Position(images, 4, 0, i) == Point(50 * DivMod(i, 4).1, 50 * DivMod(i, 4).0)
    {
      PositionBySpans(images, 4, 0, i);
    }
  }

  /** Six equal images in rows of four with padding 10: the two images of the
      last row are shifted right by (250 - 130) / 2 = 60. */
  lemma PartialLastRowCentred()
    ensures var images := seq(6, _ => Size(50, 50));
      Layout(images, 4, 10) == Some(Canvas(250, 130,
        [Point(10, 10), Point(70, 10), Point(130, 10), Point(190, 10),
         Point(70, 70), Point(130, 70)]))
  {
    var images := seq(6, _ => Size(50, 50));
    assert MaxWidth(images) == 50;
    assert MaxHeight(images) == 50;
    assert NumRows(6, 4) == 2;
    assert LastRowCount(6, 4) == 2;
    assert GridWidth(images, 4, 10) == 250;
    assert LastRowWidth(images, 4, 10) == 130;
    assert Offset(images, 4, 10, 0) == 0 && Offset(images, 4, 10, 1) == 60;
    var expected := [Point(10, 10), Point(70, 10), Point(130, 10), Point(190, 10),
                     Point(70, 70), Point(130, 70)];
    forall i | 0 <= i < 6
      ensures Position(images, 4, 10, i) == expected[i]
    {
      if i < 4 { DivModUnique(i, 4, 0, i); } else { DivModUnique(i, 4, 1, i - 4); }
      PositionBySpans(images, 4, 10, i);
    }
    assert Layout(images, 4, 10).value.positions == expected;
  }

  /** With create_tiff's defaults (four per row, padding 80), two 100 x 100
      images make an 800 x 260 canvas whose one row is shifted right by
      (800 - 440) / 2 = 180. */
  lemma DefaultsTwoImages()
    ensures Layout([Size(100, 100), Size(100, 100)], DefaultImagesPerRow, DefaultPadding)
      == Some(Canvas(800, 260, [Point(260, 80), Point(440, 80)]))
  {
    var images := [Size(100, 100), Size(100, 100)];
    assert MaxWidth(images) == 100 && MaxHeight(images) == 100;
    assert NumRows(2, 4) == 1 && LastRowCount(2, 4) == 2;
    assert GridWidth(images, 4, 80) == 800 && GridHeight(images, 4, 80) == 260;
    assert LastRowWidth(images, 4, 80) == 440;
    assert Offset(images, 4, 80, 0) == 180;
    var expected := [Point(260, 80), Point(440, 80)];
    forall i | 0 <= i < 2
      ensures Position(images, 4, 80, i) == expected[i]
    {
      DivModUnique(i, 4, 0, i);
      PositionBySpans(images, 4, 80, i);
    }
    assert Layout(images, 4, 80).value.positions == expected;
  }
}
