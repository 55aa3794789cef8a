# Tetris de Imagens: the A4 shelf packer

This project models `montar_folha`, the function at the centre of a small
Streamlit app that lays uploaded transparent PNG cut-outs out on one A4 sheet
at 300 DPI (2480 × 3508 pixels) so that they can be printed and cut by a
cutting machine. Given the list of images, a margin and a spacing in pixels,
`montar_folha`:

1. sorts the caller's list in place, tallest image first (a stable sort);
2. walks the list with a cursor `(x, y)` that starts at `(margin, margin)` and
   a `row_height` that starts at 0;
3. shrinks an image wider than the usable width `A4_WIDTH - 2*margin` to that
   width, scaling its height by the same ratio;
4. moves the cursor to the left margin of a new row, `row_height + spacing`
   lower, when the image would cross the right margin;
5. stops, with an error message to the user, at the first image that would
   cross the bottom margin;
6. otherwise pastes the image at the cursor, moves the cursor `w + spacing` to
   the right and raises `row_height` to the image's height if it is taller.

The model has three modules:

- `Images` (`images.dfy`): the A4 constants, an image as its size, and
  `Fitted`, the shrink rule of step 3.
- `Sorting` (`sort.dfy`): `TallestFirst`, the stable tallest-first order as a
  function, its properties (ordered, a permutation, stable, and the only
  stable tallest-first order), and `SortTallestFirst`, an in-place insertion
  sort on an array proved equal to it.
- `Shelf` (`shelf.dfy`): the shelf layout. `PlacedGreedily` and `StopsRightly`
  specify the layout without a loop: the k-th placement is the k-th image, at
  its fitted size, at the cursor that the first k placements leave
  (`CursorAfter`, which recomputes the row height as the tallest image of the
  row), after the wrap rule. `Pack` is the loop of steps 2 to 6 with the
  source's own `x`, `y`, `row_height` variables, proved to produce that
  layout, inside the margins and without overlaps. `ShelfLayoutUnique` shows
  that the specification allows exactly one sheet. `MountSheet` is
  `montar_folha`: the in-place sort followed by `Pack`.

The pasted pixels are not modelled: the sheet is the list of rectangles
`Placement(index, x, y, w, h)` the images are pasted into, with an outcome
among the ones the model distinguishes: every image was placed, the layout
stopped at the bottom margin (the `st.error` of line 36), or a resize was
refused. A paste that the imaging library refuses for the image's pixel mode
is not among them (see "## Left out").

Three properties of `montar_folha` shape the layout: the row height of a new
row starts at 0; an image that would cross the bottom margin ends the layout,
and there is only one sheet; the sort key is the image's height alone.

## Model

| member | source | states |
|---|---|---|
| `Images.Fitted` | Tetrisimagen.py:20-26 | an image no wider than the usable width keeps its size; a wider one gets exactly the usable width and the truncated height `h * usable / w` (the largest height the ratio allows), which is positive and no taller than before; the resize is refused exactly when that height truncates to 0 |
| `Images.ScaledHeight` | Tetrisimagen.py:24-25 | scaling a height by `usable / w < 1` and truncating gives a non-negative height below the original, within one pixel of the exact ratio, and 0 exactly when `h * usable < w` |
| `Sorting.TallestFirstIsOrdered` | Tetrisimagen.py:14 | after the sort every image is at least as tall as every image after it |
| `Sorting.TallestFirstPermutes` | Tetrisimagen.py:14 | the sorted list holds the same images as the input, each as often (a permutation) |
| `Sorting.TallestFirstIsStable` | Tetrisimagen.py:14 | images of equal height keep their input order (Python's sort is stable, also with `reverse=True`) |
| `Sorting.TallestFirstUnique` | Tetrisimagen.py:14 | any list that is tallest-first and keeps each height class in input order equals the sorted list, so the sort's result is fully determined |
| `Sorting.SortTallestFirst` | Tetrisimagen.py:14 | sorting the caller's array in place leaves in it exactly the stable tallest-first order of its old contents |
| `Sorting.InsertAt` | Tetrisimagen.py:14 | one insertion step puts the next image behind the last image at least as tall as it and leaves the rest of the array alone |
| `Sorting.InsertIntoGap` | Tetrisimagen.py:14 | an image inserted into a tallest-first list goes right after the images at least as tall as it and before the shorter ones |
| `Shelf.WrapIfNeeded` | Tetrisimagen.py:29-32 | the wrap either leaves the cursor alone or moves it to the left margin with the row height reset to 0; it never moves the cursor up; after it an image no wider than the usable width lies between the side margins |
| `Shelf.CursorStep` | Tetrisimagen.py:42-43 | after a placement the cursor is `w + spacing` right of the image, in its row, with the row height the larger of the old row height and the image's height, and it stays past every placed image |
| `Shelf.GreedyFacts` | Tetrisimagen.py:16-43 | every placed image lies inside the margins; rows go top to bottom and each row left to right with at least `spacing` between images, so `y` never decreases and `x` strictly increases within a row; between iterations the cursor's row height is the tallest image of its row |
| `Shelf.GreedyNoOverlap` | Tetrisimagen.py:29-43 | no two placed images share a pixel, and all lie inside the margins |
| `Shelf.NextInRowOrBelow` | Tetrisimagen.py:29-32 | the next image stays in the row, `w + spacing` right of the previous one, exactly when it fits before the right margin; otherwise it starts at the left margin, `row_height + spacing` below the previous row |
| `Shelf.ShelfLayoutUnique` | Tetrisimagen.py:16-43 | the shelf specification (which image goes where, and why the layout ends) determines the sheet: two sheets that meet it are equal |
| `Shelf.FourSquares` | Tetrisimagen.py:16-43 | four 591-pixel squares with margin 118 and spacing 20: three in the first row, the fourth wrapped to the left margin of a second row, all placed |
| `Shelf.TallThenWide` | Tetrisimagen.py:23-37 | a 5000 × 1000 image after a 600 × 3000 one is scaled to 2380 × 476, wraps below the tall one and crosses the bottom margin, so the layout stops with one image placed |
| `Shelf.Pack` | Tetrisimagen.py:16-43 | the placement loop places a prefix of the list, each image at the cursor the shelf rule gives, and stops at the first image whose resize is refused or that crosses the bottom margin (all placed exactly when the whole list fits); the placed rectangles lie inside the margins, are ordered in rows and do not overlap |
| `Shelf.MountSheet` | Tetrisimagen.py:9-45 | the caller's list is left in stable tallest-first order, and the sheet is the shelf layout of that order, inside the margins and without overlaps |

## Left out

- The Streamlit page (lines 47-75): page set-up, title, uploader, the margin
  (0 to 200) and spacing (0 to 100) sliders, the button and the image display.
  The sliders' ranges are the reason `Pack` and `MountSheet` require
  `0 <= margin`, `2 * margin < A4_WIDTH` and `0 <= spacing`.
- The PDF export through an in-memory buffer (lines 67-68): I/O in the imaging
  library.
- Pixel content: the white canvas (line 11), LANCZOS resampling (line 25) and
  the alpha-masked paste (line 40) are calls into the imaging library; the
  paste is modelled as appending the rectangle the image covers.
- The error message of line 36 is a user-interface side effect; it is the
  outcome `SheetFull`.
- The paste of line 40 passes the image itself as its transparency mask; the
  imaging library raises for an image whose pixel mode cannot serve as a mask
  (an opaque RGB PNG, or a palette PNG with transparency), which ends
  `montar_folha` with an exception. The model knows images only by their size,
  so it does not capture this failure: such an image is placed like any other.
- Images.Fitted: the source computes the ratio in floating point and
  truncates `w * ratio` and `h * ratio` with `int`; the model uses exact
  integers, width `A4_WIDTH - 2*margin` and height `h * (A4_WIDTH - 2*margin) / w`
  rounded down. Floating-point rounding can make the source's width or height
  one pixel smaller; either way the width never exceeds the usable width.
- Images.Fitted: the model assumes that the imaging library refuses a resize
  to a height of 0 pixels (an image more than `A4_WIDTH - 2*margin` times
  wider than tall), which raises out of `montar_folha`; it is the outcome
  `ResizeRejected`, with the images placed before it.
- Images are known only by their size. Two images of the same size are
  interchangeable in the model, so stability is stated on sizes.
- Python's sort algorithm itself: the model sorts by insertion. Both are
  stable, and `Sorting.TallestFirstUnique` shows that a stable tallest-first
  order is unique, so the result is the same.
- Python integers are unbounded, like Dafny's: there is no overflow to model.
- Several sheets, randomised placement with mask collision tests, and the
  bleed, outline and hole-filling pipeline are not part of this source file
  and are not part of this model.
