/** The sheet and the images laid out on it: the fixed A4 page at 300 DPI, an
    image reduced to its pixel size, and the rule that shrinks an image wider
    than the usable width of the page. */
module Images {

  /** Width and height of an A4 page at 300 DPI, in pixels. */
  const A4_WIDTH: int := 2480
  const A4_HEIGHT: int := 3508

  datatype Option<T> = None | Some(value: T)

  /** An uploaded image, known only by its size in pixels. */
  datatype Image = Image(w: int, h: int)

  /** A decoded PNG always has at least one pixel in each direction. */
  predicate Positive(img: Image) {
    img.w > 0 && img.h > 0
  }

  predicate AllPositive(images: seq<Image>) {
    forall i :: 0 <= i < |images| ==> Positive(images[i])
  }

  /** The margin is not negative and leaves at least one usable column. */
  predicate ValidMargin(margin: int) {
    0 <= margin && 2 * margin < A4_WIDTH
  }

  /** Width between the left and the right margin. */
  function UsableWidth(margin: int): int {
    A4_WIDTH - 2 * margin
  }

  /** For positive a and b: the quotient a / b is the largest q with q * b <= a. */
  lemma FloorDivision(a: int, b: int, q: int)
    requires a >= 0 && b > 0 && q == a / b
    ensures q >= 0 && q * b <= a < (q + 1) * b
  {
  }

  lemma MulMono(a: int, b: int, c: int)
    requires a <= b && c >= 0
    ensures a * c <= b * c
  {
    assert (b - a) * c >= 0;
  }

  /** Scaling a height h by u / w with 0 < u < w and truncating gives the
      largest height no more than the exact ratio allows, smaller than h, and
      0 exactly when h * u falls short of w. */
  lemma ScaledHeight(h: int, u: int, w: int, nh: int)
    requires h > 0 && 0 < u < w && nh == h * u / w
    ensures 0 <= nh < h && nh * w <= h * u < (nh + 1) * w
    ensures nh == 0 <==> h * u < w
  {
    FloorDivision(h * u, w, nh);
    MulMono(u + 1, w, h);
    assert h * u < h * w;
    if nh >= h {
      MulMono(h, nh, w);
    }
    if nh >= 1 {
      MulMono(1, nh, w);
    }
  }

  /** The size an image has when it is pasted: an image no wider than the
      usable width is kept as it is; a wider one is scaled down to exactly the
      usable width, its height scaled by the same ratio and truncated. A
      height that truncates to 0 is refused by the imaging library (None). */
  function Fitted(img: Image, margin: int): (r: Option<Image>)
    requires Positive(img) && ValidMargin(margin)
    ensures img.w <= UsableWidth(margin) ==> r == Some(img)
    ensures img.w > UsableWidth(margin) ==>
      (r.Some? <==> img.h * UsableWidth(margin) >= img.w)
    ensures r.Some? ==>
      Positive(r.value) && r.value.w <= UsableWidth(margin) && r.value.h <= img.h
    ensures r.Some? && img.w > UsableWidth(margin) ==>
      r.value.w == UsableWidth(margin) &&
      r.value.h * img.w <= img.h * UsableWidth(margin) < (r.value.h + 1) * img.w
  {
    if img.w <= UsableWidth(margin) then Some(img)
    else
      var u := UsableWidth(margin);
      var nh := img.h * u / img.w;
      ScaledHeight(img.h, u, img.w, nh);
      if nh == 0 then None else Some(Image(u, nh))
  }
}
