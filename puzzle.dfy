/**
 * The slider puzzle of src/puzzle.rs: the tolerance test `verify_puzzle`, and
 * the integer geometry and pixel copying of `from_dimensions`.
 *
 * Images are two-dimensional arrays of RGBA pixels indexed `[x, y]`, so that
 * `Length0` is the width and `Length1` the height.  The random background and
 * the two random start coordinates are parameters.
 */
module Puzzle {

  newtype byte = x: int | 0 <= x < 256

  /** An RGBA pixel with 8-bit channels. */
  datatype Pixel = Rgba(r: byte, g: byte, b: byte, a: byte)

  /** The initial pixel of a fresh `new_rgba8` image. */
  const Transparent := Rgba(0, 0, 0, 0)

  /** A pixel as stored in (and read back from) an RGB image: the colour is
    * kept and the pixel is opaque. */
  function ToRgb(p: Pixel): Pixel {
    Rgba(p.r, p.g, p.b, 255)
  }

  // ---------------------------------------------------------------------------
  // verify_puzzle
  // ---------------------------------------------------------------------------

  function Abs(x: real): real {
    if x < 0.0 then -x else x
  }

  /** A submission is accepted iff it is strictly closer than `margin` to the
    * solution. */
  function VerifyPuzzle(solution: real, submission: real, margin: real): (ok: bool)
    ensures ok <==> -margin < solution - submission < margin
    ensures margin <= 0.0 ==> !ok
  {
    Abs(solution - submission) < margin
  }

  lemma VerifyPuzzleSymmetric(solution: real, submission: real, margin: real)
    ensures VerifyPuzzle(solution, submission, margin) == VerifyPuzzle(submission, solution, margin)
  {
  }

  /** A submission `solution + eps` is accepted iff `|eps| < margin`; the
    * boundary `|eps| == margin` is rejected. */
  lemma VerifyPuzzleOffset(solution: real, eps: real, margin: real)
    ensures VerifyPuzzle(solution, solution + eps, margin) <==> Abs(eps) < margin
    ensures VerifyPuzzle(solution, solution - eps, margin) <==> Abs(eps) < margin
    ensures Abs(eps) == margin ==> !VerifyPuzzle(solution, solution + eps, margin)
  {
  }

  // ---------------------------------------------------------------------------
  // Geometry of from_dimensions
  // ---------------------------------------------------------------------------

  function Min(a: nat, b: nat): nat {
    if a <= b then a else b
  }

  /** `u32::saturating_sub`. */
  function SaturatingSub(a: nat, b: nat): nat {
    if a >= b then a - b else 0
  }

  /** The piece is a fifth of the image in each direction, rounded down. */
  function PieceWidth(width: nat): (pw: nat)
    ensures 5 * pw <= width < 5 * pw + 5
  {
    width / 5
  }

  function PieceHeight(height: nat): (ph: nat)
    ensures 5 * ph <= height < 5 * ph + 5
  {
    height / 5
  }

  /** Lower end of the range `start_x` is drawn from. */
  function MinStartX(width: nat): (m: nat)
    // The saturating clamp never bites: a fifth never exceeds the other four.
    ensures m == PieceWidth(width)
  {
    Min(PieceWidth(width), SaturatingSub(width, PieceWidth(width)))
  }

  /** `start_x` in `[MinStartX(width), width - pw)` and `start_y` in
    * `[ph, 2 * ph)`: the two `gen_range` calls. */
  predicate ValidStart(width: nat, height: nat, startX: nat, startY: nat)
    ensures ValidStart(width, height, startX, startY) ==> width >= 1 && height >= 5
  {
    && MinStartX(width) <= startX < width - PieceWidth(width)
    && PieceHeight(height) <= startY < 2 * PieceHeight(height)
  }

  /** Both ranges are non-empty (so `gen_range` does not panic) iff the image
    * is at least 1 pixel wide and 5 pixels high. */
  lemma StartRangesNonEmpty(width: nat, height: nat)
    ensures MinStartX(width) == PieceWidth(width)
    ensures MinStartX(width) < width - PieceWidth(width) <==> width >= 1
    ensures PieceHeight(height) < 2 * PieceHeight(height) <==> height >= 5
    ensures width >= 1 && height >= 5 ==> ValidStart(width, height, PieceWidth(width), PieceHeight(height))
  {
  }

  /** The cut rectangle lies strictly inside the image. */
  lemma RectangleInBounds(width: nat, height: nat, startX: nat, startY: nat)
    requires ValidStart(width, height, startX, startY)
    ensures startX + PieceWidth(width) < width
    ensures startY + PieceHeight(height) < height
  {
  }

  /** Whether pixel `(x, y)` is inside the cut rectangle. */
  predicate InRect(x: nat, y: nat, startX: nat, startY: nat, pw: nat, ph: nat) {
    startX <= x < startX + pw && startY <= y < startY + ph
  }

  // ---------------------------------------------------------------------------
  // The two pixel-copy loops of from_dimensions
  // ---------------------------------------------------------------------------

  /** Copy the `pw` by `ph` rectangle at `(startX, startY)` into a new RGB image. */
  method ExtractPiece(input: array2<Pixel>, startX: nat, startY: nat, pw: nat, ph: nat) returns (piece: array2<Pixel>)
    requires startX + pw <= input.Length0 && startY + ph <= input.Length1
    ensures fresh(piece)
    ensures piece.Length0 == pw && piece.Length1 == ph
    ensures forall x, y :: 0 <= x < pw && 0 <= y < ph ==> piece[x, y] == ToRgb(input[startX + x, startY + y])
  {
    piece := new Pixel[pw, ph]((x, y) => Rgba(0, 0, 0, 255));
    for y := 0 to ph
      invariant forall i, j :: 0 <= i < pw && 0 <= j < y ==> piece[i, j] == ToRgb(input[startX + i, startY + j])
    {
      for x := 0 to pw
        invariant forall i, j :: 0 <= i < pw && 0 <= j < y ==> piece[i, j] == ToRgb(input[startX + i, startY + j])
        invariant forall i :: 0 <= i < x ==> piece[i, y] == ToRgb(input[startX + i, startY + y])
      {
        piece[x, y] := ToRgb(input[startX + x, startY + y]);
      }
    }
  }

  /** Copy the whole image into a new RGBA image, making the pixels of the
    * cut rectangle fully transparent. */
  method CutOut(input: array2<Pixel>, startX: nat, startY: nat, pw: nat, ph: nat) returns (cropped: array2<Pixel>)
    ensures fresh(cropped)
    ensures cropped.Length0 == input.Length0 && cropped.Length1 == input.Length1
    ensures forall x, y :: 0 <= x < input.Length0 && 0 <= y < input.Length1 ==>
              && cropped[x, y].r == input[x, y].r
              && cropped[x, y].g == input[x, y].g
              && cropped[x, y].b == input[x, y].b
              && cropped[x, y].a == if InRect(x, y, startX, startY, pw, ph) then 0 else input[x, y].a
  {
    var width, height := input.Length0, input.Length1;
    cropped := new Pixel[width, height]((x, y) => Transparent);
    for y := 0 to height
      invariant forall i, j :: 0 <= i < width && 0 <= j < y ==>
                  cropped[i, j] == CutPixel(input[i, j], InRect(i, j, startX, startY, pw, ph))
    {
      for x := 0 to width
        invariant forall i, j :: 0 <= i < width && 0 <= j < y ==>
                    cropped[i, j] == CutPixel(input[i, j], InRect(i, j, startX, startY, pw, ph))
        invariant forall i :: 0 <= i < x ==>
                    cropped[i, y] == CutPixel(input[i, y], InRect(i, y, startX, startY, pw, ph))
      {
        var pixel := input[x, y];
        if x >= startX && x < startX + pw && y >= startY && y < startY + ph {
          pixel := pixel.(a := 0);
        }
        cropped[x, y] := pixel;
      }
    }
  }

  /** A pixel of the cropped image: alpha cleared inside the rectangle. */
  function CutPixel(p: Pixel, inside: bool): Pixel {
    if inside then p.(a := 0) else p
  }

  // ---------------------------------------------------------------------------
  // from_dimensions
  // ---------------------------------------------------------------------------

  /** `SliderPuzzle`: the cropped background, the piece, and the piece's
    * position as fractions of the image size. */
  datatype SliderPuzzle = SliderPuzzle(croppedPuzzle: array2<Pixel>, puzzlePiece: array2<Pixel>, x: real, y: real)

  /** A start coordinate divided by the image size lies in `[0, 1)`. */
  lemma FractionBelowOne(a: nat, b: nat)
    requires a < b
    ensures 0.0 <= a as real / b as real < 1.0
  {
    var q := a as real / b as real;
    assert q * b as real == a as real;
  }

  /** Build a puzzle from a background image and the two random start
    * coordinates. */
  method FromDimensions(input: array2<Pixel>, startX: nat, startY: nat) returns (p: SliderPuzzle)
    requires ValidStart(input.Length0, input.Length1, startX, startY)
    ensures fresh(p.croppedPuzzle) && fresh(p.puzzlePiece)
    ensures 0.0 <= p.x < 1.0 && 0.0 <= p.y < 1.0
    ensures p.x == startX as real / input.Length0 as real
    ensures p.y == startY as real / input.Length1 as real
    ensures p.puzzlePiece.Length0 == PieceWidth(input.Length0) && p.puzzlePiece.Length1 == PieceHeight(input.Length1)
    ensures forall x, y :: 0 <= x < p.puzzlePiece.Length0 && 0 <= y < p.puzzlePiece.Length1 ==>
              p.puzzlePiece[x, y] == ToRgb(input[startX + x, startY + y])
    ensures p.croppedPuzzle.Length0 == input.Length0 && p.croppedPuzzle.Length1 == input.Length1
    ensures forall x, y :: 0 <= x < input.Length0 && 0 <= y < input.Length1 ==>
              && p.croppedPuzzle[x, y].r == input[x, y].r
              && p.croppedPuzzle[x, y].g == input[x, y].g
              && p.croppedPuzzle[x, y].b == input[x, y].b
              && p.croppedPuzzle[x, y].a ==
                   if InRect(x, y, startX, startY, PieceWidth(input.Length0), PieceHeight(input.Length1)) then 0
                   else input[x, y].a
  {
    var width, height := input.Length0, input.Length1;
    var pw, ph := PieceWidth(width), PieceHeight(height);
    RectangleInBounds(width, height, startX, startY);
    var piece := ExtractPiece(input, startX, startY, pw, ph);
    var cropped := CutOut(input, startX, startY, pw, ph);
    FractionBelowOne(startX, width);
    FractionBelowOne(startY, height);
    p := SliderPuzzle(cropped, piece, startX as real / width as real, startY as real / height as real);
  }
}
