# Grid composer of the TIFF folder tool, in Dafny

The program downloads an archive of pictures, walks its folders and, for each
folder, pastes the folder's images onto one white canvas laid out as a padded
grid, which it saves as a TIFF file. This project models the part of that
program with real logic: the grid layout of `create_tiff` and the file-name
test of `process_images`.

- `grid.dfy`, module `Grid`: images as `Size(width, height)`; the maxima of
  the widths and heights; the row count `NumRows` (a ceiling division); the
  number of images on the last row; the centring `Offset` of a row; the paste
  `Position` of image `i`; `Layout`, which yields `None` for an empty list (the
  early return) or the canvas size and the positions of all images in input
  order; and `ComposeGrid`, the placement loop of `create_tiff` as a method
  that records one position per image and is proved equal to `Layout`.
- `grid_lemmas.dfy`, module `GridLemmas`: the canvas size formula, cells inside
  the grid and distinct, every image inside the canvas with a padding margin,
  the spacing of neighbours along a row and down a column, that no two images
  overlap, and three worked layouts.
- `image_filter.dfy`, module `ImageFilter`: the suffix test on file names and
  the selection of image files from a folder listing.

The canvas, its white fill and `paste` are replaced by the returned `Canvas`
value: its width, its height and the ordered list of top-left corners.

A lone image does not get a one-cell canvas. The canvas is always
`images_per_row` columns wide (main.py:36) and the image is centred on it:
`GridLemmas.SingleImageCentred` proves that a `100 x 50` image with four per
row and padding 10 gets a `450 x 70` canvas with the image at `(175, 10)`.

## Model

| member | source | states |
|---|---|---|
| `Grid.Max` | main.py:32-33 | the result is one of the elements and no element exceeds it |
| `Grid.MaxWidth` | main.py:32 | every image is at most this wide and some image is exactly this wide |
| `Grid.MaxHeight` | main.py:33 | every image is at most this tall and some image is exactly this tall |
| `Grid.NumRows` | main.py:34 | `(count + perRow - 1) // perRow` is the ceiling: zero for no images, otherwise `(n-1)*perRow < count <= n*perRow` |
| `Grid.CeilingUnique` | main.py:34 | only one row count satisfies the ceiling bounds |
| `Grid.DivMod` | main.py:42 | `divmod(index, perRow)` gives a row and a column with `row*perRow + col == index` and `col < perRow` |
| `Grid.DivModUnique` | main.py:42 | any row and column with that property are the ones `divmod` returns |
| `Grid.LastRowCount` | main.py:46-48 | `count % perRow or perRow` lies in `1..perRow`, and the full rows before the last plus it make up the count |
| `Grid.LastRowCountSplit` | main.py:46-48 | both branches of the `or`: the remainder when it is not zero, a full row when it is |
| `Grid.GridWidth` | main.py:36 | the canvas is wide enough for any image with padding on both sides; `GridLemmas.CanvasSize` gives its exact value |
| `Grid.GridHeight` | main.py:37 | the canvas is tall enough for any image with padding above and below; `GridLemmas.CanvasSize` gives its exact value |
| `Grid.LastRowWidth` | main.py:49-52 | the width used by the last row never exceeds the canvas width, so the unused width is never negative |
| `Grid.Offset` | main.py:44-53 | the offset is zero on every row but the last, and zero on the last row when the count is a multiple of `perRow`; on the last row the offset on each side of the used width fits in the canvas and the two margins differ by at most one pixel |
| `Grid.Position` | main.py:42-56 | no image is pasted closer than `padding` to the left or top edge; `GridLemmas.PositionInsideCanvas` adds the right and bottom edges |
| `Grid.Layout` | main.py:29-58 | no layout exactly when the image list is empty; otherwise one position per image |
| `Grid.ComposeGrid` | main.py:29-58 | the loop that computes `offset`, `x` and `y` image by image returns exactly `Layout` |
| `GridLemmas.CanvasSize` | main.py:32-37 | for the largest width and height and the ceiling row count, the canvas is `maxWidth*perRow + padding*(perRow+1)` by `maxHeight*rows + padding*(rows+1)` |
| `GridLemmas.CellInGrid` | main.py:34-42 | the row of every image is below the row count |
| `GridLemmas.CellsDistinct` | main.py:42 | distinct images get distinct `(row, col)` cells |
| `GridLemmas.LastRowColumns` | main.py:45-48 | on the last row every column is below the number of images that row holds |
| `GridLemmas.InsideHorizontally` | main.py:36-55 | every image is at least `padding` from the left and right edges of the canvas |
| `GridLemmas.InsideVertically` | main.py:37-56 | every image is at least `padding` from the top and bottom edges of the canvas |
| `GridLemmas.PositionInsideCanvas` | main.py:32-56 | every image lies inside the canvas, at least `padding` from each of its four edges |
| `GridLemmas.LayoutFitsCanvas` | main.py:36-58 | the same for every position recorded in the layout |
| `GridLemmas.NextCell` | main.py:42 | the next image is in the same row and the next column unless it starts a row |
| `GridLemmas.ColumnStep` | main.py:55 | consecutive images of one row are `maxWidth + padding` apart on the same line |
| `GridLemmas.BelowCell` | main.py:42 | the image `perRow` places later is in the next row and the same column, so the earlier one is not on the last row |
| `GridLemmas.RowStep` | main.py:56 | an image and the one below it are `maxHeight + padding` apart |
| `GridLemmas.RowShift` | main.py:44-55 | an image is shifted sideways from the one above it only by the lower row's offset |
| `GridLemmas.CellsSeparated` | main.py:55-56 | two different cells whose row shares one offset are at least `padding` apart along one axis |
| `GridLemmas.PlacementsDisjoint` | main.py:41-58 | no two pasted images overlap |
| `GridLemmas.SingleImageCentred` | main.py:29-58 | one `100 x 50` image, four per row, padding 10: canvas `450 x 70`, image at `(175, 10)` |
| `GridLemmas.SingleImageOffset` | main.py:36-53 | for that image the canvas is `450 x 70` and its row is shifted by 165 |
| `GridLemmas.FullLastRowNotShifted` | main.py:29-58 | eight `50 x 50` images, four per row, no padding: canvas `200 x 100`, no row shifted, every image at the corner of its cell |
| `GridLemmas.PartialLastRowCentred` | main.py:29-58 | six `50 x 50` images, four per row, padding 10: canvas `250 x 130`, the two last-row images shifted right by 60 |
| `GridLemmas.DefaultsTwoImages` | main.py:19-58 | with the defaults of `create_tiff` (four per row, padding 80), two `100 x 100` images give an `800 x 260` canvas with the images at `(260, 80)` and `(440, 80)` |
| `ImageFilter.Lower` | main.py:70 | lower-casing keeps the length, turns each of `A`-`Z` into the lower-case letter at the same place in the alphabet, and keeps every other character |
| `ImageFilter.EndsWithAny` | main.py:70 | `endswith` on a tuple holds exactly when one of the suffixes ends the name |
| `ImageFilter.SelectImageFiles` | main.py:67-71 | a file is kept exactly when it is listed and passes the test; nothing is added; a listing of images only is kept whole |
| `ImageFilter.EndsWith` | main.py:70 | `endswith` with one suffix holds exactly when the name is some prefix followed by that suffix |
| `ImageFilter.IsImageFile` | main.py:70 | a file is an image exactly when its lower-cased name is some prefix followed by `png`, `jpg`, `jpeg`, `bmp` or `gif`, with no dot required |
| `ImageFilter.CaseInsensitive` | main.py:70 | a name and its lower-cased form are judged alike |
| `ImageFilter.AcceptedNames` | main.py:70 | `photo.JPEG` and `xpng` are accepted |
| `ImageFilter.RejectsText` | main.py:70 | `notes.txt` is not accepted |
| `ImageFilter.RejectsTiff` | main.py:70 | `grid.tif`, the tool's own output format, is not accepted |

## Left out

- `download_and_extract_archive` (main.py:10-16): HTTP requests and zip extraction are network and library I/O.
- Pixel data, `Image.new` with its white fill, `paste` and `Image.open`: only dimensions and paste positions are modelled.
- Creating the output directory and saving the TIFF with deflate compression (main.py:60-61): file I/O and encoding done by the imaging library.
- The directory walk, path joining, the per-folder call and the message printed in `process_images` (main.py:66-79); only the suffix test and the list it builds are modelled.
- `main` (main.py:83-89): fixed configuration and glue.
- `ImageFilter.Lower`: lower-cases ASCII letters only; Unicode case mapping of `str.lower()` is not modelled.
- `Grid.Layout`: `images_per_row` must be at least 1 (the source fails for 0 at the division on main.py:34 and for negative values at canvas creation on main.py:39) and `padding` is a natural number; negative padding, which the source would accept, is not modelled.
- `ImageFilter.SelectImageFiles`: states membership, length and the all-images case, but not that the kept files stay in their listed order (the definition keeps it; no lemma states it).
