/** The grid layout computed by create_tiff: the size of the composite canvas,
    the cell of every image, the horizontal centring of the last row, and the
    loop that places the images one after another.

    Only the dimensions of the images matter to the layout; pixel data, the
    white background and the pasting itself are represented by the returned
    description of where each image goes. */
module Grid {

  /** Width and height of one decoded image. */
  datatype Size = Size(width: nat, height: nat)

  /** The top-left corner at which an image is pasted. */
  datatype Point = Point(x: nat, y: nat)

  /** The composite: its size and, in input order, the paste position of each image. */
  datatype Canvas = Canvas(width: nat, height: nat, positions: seq<Point>)

  datatype Option<T> = None | Some(value: T)

  /** Default layout parameters of create_tiff. */
  const DefaultImagesPerRow: nat := 4
  const DefaultPadding: nat := 80

  // ---------------------------------------------------------------------------
  // Arithmetic helpers
  // ---------------------------------------------------------------------------

  lemma MulMono(a: nat, b: nat, c: nat)
    requires a <= b
    ensures a * c <= b * c
  {
  }

  /** A product that is strictly smaller on the left has the smaller factor. */
  lemma MulLessCancel(a: nat, b: nat, c: nat)
    requires a * c < b * c
    ensures a < b
  {
    if b <= a {
      MulMono(b, a, c);
    }
  }

  // ---------------------------------------------------------------------------
  // Maxima over the images
  // ---------------------------------------------------------------------------

  /** The largest element of a non-empty sequence. */
  function Max(xs: seq<nat>): (m: nat)
    requires |xs| > 0
    ensures exists k :: 0 <= k < |xs| && xs[k] == m
    ensures forall k :: 0 <= k < |xs| ==> xs[k] <= m
  {
    if |xs| == 1 then xs[0]
    else
      var rest := Max(xs[1..]);
      assert forall k :: 1 <= k < |xs| ==> xs[k] == xs[1..][k - 1];
      if xs[0] >= rest then xs[0] else rest
  }

  function Widths(images: seq<Size>): seq<nat>
  {
    seq(|images|, k requires 0 <= k < |images| => images[k].width)
  }

  function Heights(images: seq<Size>): seq<nat>
  {
    seq(|images|, k requires 0 <= k < |images| => images[k].height)
  }

  /** The widest image's width: every image fits in it and some image has it. */
  function MaxWidth(images: seq<Size>): (w: nat)
    requires |images| > 0
    ensures forall k :: 0 <= k < |images| ==> images[k].width <= w
    ensures exists k :: 0 <= k < |images| && images[k].width == w
  {
    var ws := Widths(images);
    var m := Max(ws);
    assert forall k :: 0 <= k < |images| ==> ws[k] == images[k].width;
    m
  }

  /** The tallest image's height: every image fits in it and some image has it. */
  function MaxHeight(images: seq<Size>): (h: nat)
    requires |images| > 0
    ensures forall k :: 0 <= k < |images| ==> images[k].height <= h
    ensures exists k :: 0 <= k < |images| && images[k].height == h
  {
    var hs := Heights(images);
    var m := Max(hs);
    assert forall k :: 0 <= k < |images| ==> hs[k] == images[k].height;
    m
  }

  // ---------------------------------------------------------------------------
  // Rows and columns
  // ---------------------------------------------------------------------------

  /** The length of n cells of size cell laid side by side, with padding
      before, between and after them. */
  function Span(cell: nat, n: nat, padding: nat): nat
  {
    cell * n + padding * (n + 1)
  }

  /** Each further cell adds a cell and a padding. */
  lemma SpanStep(cell: nat, n: nat, padding: nat)
    ensures Span(cell, n, padding) == n * (cell + padding) + padding
  {
  }

  lemma SpanSucc(cell: nat, n: nat, padding: nat)
    ensures Span(cell, n + 1, padding) == Span(cell, n, padding) + cell + padding
  {
  }

  /** A span of more cells is longer by at least one cell and one padding. */
  lemma SpanGap(cell: nat, a: nat, b: nat, padding: nat)
    requires a < b
    ensures Span(cell, a, padding) + cell + padding <= Span(cell, b, padding)
  {
    SpanStep(cell, a, padding);
    SpanStep(cell, b, padding);
    MulMono(a + 1, b, cell + padding);
  }

  lemma SpanMono(cell: nat, a: nat, b: nat, padding: nat)
    requires a <= b
    ensures Span(cell, a, padding) <= Span(cell, b, padding)
  {
    if a < b {
      SpanGap(cell, a, b, padding);
    }
  }

  /** divmod(index, perRow): the row and the column of image `index`. */
  function DivMod(index: nat, perRow: nat): (cell: (nat, nat))
    requires perRow >= 1
    ensures cell.0 * perRow + cell.1 == index && cell.1 < perRow
  {
    (index / perRow, index % perRow)
  }

  /** A row and a column that give the index back are the ones divmod returns. */
  lemma DivModUnique(index: nat, perRow: nat, row: nat, col: nat)
    requires perRow >= 1 && col < perRow && index == row * perRow + col
    ensures DivMod(index, perRow) == (row, col)
  {
    var cell := DivMod(index, perRow);
    if cell.0 < row {
      MulStep(cell.0, row, perRow);
      assert false;
    } else if row < cell.0 {
      MulStep(row, cell.0, perRow);
      assert false;
    }
  }

  /** A larger factor adds at least one more multiple. */
  lemma MulStep(a: nat, b: nat, d: nat)
    requires a < b
    ensures a * d + d <= b * d
  {
    assert (a + 1) * d == a * d + d;
    MulMono(a + 1, b, d);
  }

  /** The ceiling of count / perRow is the only n with (n-1)*perRow < count <= n*perRow. */
  lemma CeilingUnique(count: nat, perRow: nat, n: nat, m: nat)
    requires perRow >= 1 && count > 0
    requires (n - 1) * perRow < count <= n * perRow
    requires (m - 1) * perRow < count <= m * perRow
    ensures n == m
  {
    if n >= 1 && m >= 1 {
      MulLessCancel(n - 1, m, perRow);
      MulLessCancel(m - 1, n, perRow);
    }
  }

  /** Number of rows: (count + perRow - 1) // perRow, the ceiling of count / perRow. */
  function NumRows(count: nat, perRow: nat): (n: nat)
    requires perRow >= 1
    ensures count == 0 ==> n == 0
    ensures count > 0 ==> n >= 1 && (n - 1) * perRow < count <= n * perRow
  {
    var n := (count + perRow - 1) / perRow;
    var rem := (count + perRow - 1) % perRow;
    assert count + perRow - 1 == n * perRow + rem;
    assert (n - 1) * perRow == n * perRow - perRow;
    n
  }

  /** Number of images on the last row: count % perRow, or a full row when
      that remainder is zero. The rows before it are full and hold the rest. */
  function LastRowCount(count: nat, perRow: nat): (r: nat)
    requires perRow >= 1 && count > 0
    ensures 1 <= r <= perRow
    ensures (NumRows(count, perRow) - 1) * perRow + r == count
  {
    LastRowCountSplit(count, perRow);
    if count % perRow != 0 then count % perRow else perRow
  }

  /** The quotient and remainder of count / perRow determine the number of rows. */
  lemma LastRowCountSplit(count: nat, perRow: nat)
    requires perRow >= 1 && count > 0
    ensures count % perRow != 0 ==> (NumRows(count, perRow) - 1) * perRow + count % perRow == count
    ensures count % perRow == 0 ==> (NumRows(count, perRow) - 1) * perRow + perRow == count
  {
    var d, m := count / perRow, count % perRow;
    assert count == d * perRow + m;
    assert (d + 1) * perRow == d * perRow + perRow;
    if m != 0 {
      CeilingUnique(count, perRow, d + 1, NumRows(count, perRow));
    } else {
      assert d >= 1;
      assert (d - 1) * perRow == d * perRow - perRow;
      CeilingUnique(count, perRow, d, NumRows(count, perRow));
    }
  }

  // ---------------------------------------------------------------------------
  // Canvas size, offsets and positions
  // ---------------------------------------------------------------------------

  /** Canvas width: perRow columns of the widest image, padded. Any image
      with padding on both sides fits across it. */
  function GridWidth(images: seq<Size>, perRow: nat, padding: nat): (w: nat)
    requires |images| > 0 && perRow >= 1
    ensures forall k :: 0 <= k < |images| ==> images[k].width + 2 * padding <= w
  {
    SpanMono(MaxWidth(images), 1, perRow, padding);
    Span(MaxWidth(images), perRow, padding)
  }

  /** Canvas height: NumRows rows of the tallest image, padded. Any image
      with padding above and below fits down it. */
  function GridHeight(images: seq<Size>, perRow: nat, padding: nat): (h: nat)
    requires |images| > 0 && perRow >= 1
    ensures forall k :: 0 <= k < |images| ==> images[k].height + 2 * padding <= h
  {
    SpanMono(MaxHeight(images), 1, NumRows(|images|, perRow), padding);
    Span(MaxHeight(images), NumRows(|images|, perRow), padding)
  }

  /** Width taken by the images of the last row, with their padding. */
  function LastRowWidth(images: seq<Size>, perRow: nat, padding: nat): (u: nat)
    requires |images| > 0 && perRow >= 1
    ensures u <= GridWidth(images, perRow, padding)
  {
    var lastCount := LastRowCount(|images|, perRow);
    SpanMono(MaxWidth(images), lastCount, perRow, padding);
    Span(MaxWidth(images), lastCount, padding)
  }

  /** Horizontal shift of row `row`: only the last row is shifted, and only
      when it is not full; the shift centres the last row to within one
      pixel. */
  function Offset(images: seq<Size>, perRow: nat, padding: nat, row: nat): (o: nat)
    requires |images| > 0 && perRow >= 1
    ensures row != NumRows(|images|, perRow) - 1 ==> o == 0
    ensures |images| % perRow == 0 ==> o == 0
    ensures row == NumRows(|images|, perRow) - 1 ==>
      var unused := GridWidth(images, perRow, padding) - LastRowWidth(images, perRow, padding);
      o + LastRowWidth(images, perRow, padding) + o <= GridWidth(images, perRow, padding)
        && unused <= 2 * o + 1
  {
    if row == NumRows(|images|, perRow) - 1 then
      (GridWidth(images, perRow, padding) - LastRowWidth(images, perRow, padding)) / 2
    else
      0
  }

  /** Paste position of image i: cell (i // perRow, i % perRow), each cell
      maxWidth by maxHeight with padding around it, shifted by the row's
      offset: x = col * maxWidth + padding * (col + 1) + offset and
      y = row * maxHeight + padding * (row + 1). No image is pasted closer
      than padding to the left or top edge. */
  function Position(images: seq<Size>, perRow: nat, padding: nat, i: nat): (p: Point)
    requires perRow >= 1 && i < |images|
    ensures padding <= p.x && padding <= p.y
  {
    var cell := DivMod(i, perRow);
    var row, col := cell.0, cell.1;
    var maxWidth, maxHeight := MaxWidth(images), MaxHeight(images);
    SpanMono(maxWidth, 0, col, padding);
    SpanMono(maxHeight, 0, row, padding);
    Point(Span(maxWidth, col, padding) + Offset(images, perRow, padding, row),
          Span(maxHeight, row, padding))
  }

  /** The whole layout: nothing for an empty list, otherwise the canvas size
      and the paste position of every image in input order. */
  function Layout(images: seq<Size>, perRow: nat, padding: nat): (r: Option<Canvas>)
    requires perRow >= 1
    ensures r.None? <==> |images| == 0
    ensures r.Some? ==> |r.value.positions| == |images|
  {
    if |images| == 0 then None
    else
      Some(Canvas(GridWidth(images, perRow, padding), GridHeight(images, perRow, padding),
                  seq(|images|, i requires 0 <= i < |images| => Position(images, perRow, padding, i))))
  }

  // ---------------------------------------------------------------------------
  // The placement loop
  // ---------------------------------------------------------------------------

  /** create_tiff without its I/O: returns None where the source returns early,
      otherwise the canvas size and the positions computed image by image. */
  method ComposeGrid(images: seq<Size>, perRow: nat, padding: nat) returns (r: Option<Canvas>)
    requires perRow >= 1
    ensures r == Layout(images, perRow, padding)
  {
    if |images| == 0 {
      return None;
    }
    var maxWidth := MaxWidth(images);
    var maxHeight := MaxHeight(images);
    var numRows := (|images| + perRow - 1) / perRow;
    var gridWidth := maxWidth * perRow + padding * (perRow + 1);
    var gridHeight := maxHeight * numRows + padding * (numRows + 1);
    assert numRows == NumRows(|images|, perRow);
    assert gridWidth == GridWidth(images, perRow, padding);
    assert gridHeight == GridHeight(images, perRow, padding);

    var positions: seq<Point> := [];
    for index := 0 to |images|
      invariant |positions| == index
      invariant forall j :: 0 <= j < index ==> positions[j] == Position(images, perRow, padding, j)
    {
      var row, col := index / perRow, index % perRow;
      assert (row, col) == DivMod(index, perRow);
      var offset := 0;
      if row == numRows - 1 {
        var lastCount := if |images| % perRow != 0 then |images| % perRow else perRow;
        var totalPadding := gridWidth - (maxWidth * lastCount + padding * (lastCount + 1));
        assert totalPadding == GridWidth(images, perRow, padding) - LastRowWidth(images, perRow, padding) by {
          assert lastCount == LastRowCount(|images|, perRow);
        }
        offset := totalPadding / 2;
      }
      assert offset == Offset(images, perRow, padding, row);
      assert col * maxWidth + padding * (col + 1) == Span(maxWidth, col, padding);
      assert row * maxHeight + padding * (row + 1) == Span(maxHeight, row, padding);
      var x := col * maxWidth + padding * (col + 1) + offset;
      var y := row * maxHeight + padding * (row + 1);
      assert Point(x, y) == Position(images, perRow, padding, index);
      positions := positions + [Point(x, y)];
    }
    assert positions == seq(|images|, i requires 0 <= i < |images| => Position(images, perRow, padding, i));
    r := Some(Canvas(gridWidth, gridHeight, positions));
  }
}
