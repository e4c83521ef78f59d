/**
 * A bounding box of fixed, even, positive size, positioned by its top-left corner.
 * The centre and the bottom-right corner are derived from the top-left corner.
 */
module BoundingBox {

  /** An (x, y) pixel position. */
  type Point = (int, int)

  const Origin: Point := (0, 0)

  /** The size every box of the program has: positive and even in both directions. */
  predicate ValidSize(w: int, h: int) {
    w > 0 && h > 0 && w % 2 == 0 && h % 2 == 0
  }

  /** The centre of a w-by-h box at tl, rounded down with floor division. */
  function CentreOf(tl: Point, w: int, h: int): (cp: Point)
    requires ValidSize(w, h)
    // with an even size the centre is exactly half-way between the corners
    ensures 2 * cp.0 == tl.0 + BottomRightOf(tl, w, h).0
    ensures 2 * cp.1 == tl.1 + BottomRightOf(tl, w, h).1
  {
    (tl.0 + w / 2, tl.1 + h / 2)
  }

  function BottomRightOf(tl: Point, w: int, h: int): Point {
    (tl.0 + w, tl.1 + h)
  }

  class BBox {
    const w: int
    const h: int
    var tlx: int
    var tly: int

    function Tl(): Point
      reads this
    {
      (tlx, tly)
    }

    /** The box invariant: its size is positive and even. */
    ghost predicate Valid()
      reads this
    {
      ValidSize(w, h)
    }

    function Cp(): Point
      reads this
      requires Valid()
    {
      CentreOf(Tl(), w, h)
    }

    function Br(): Point
      reads this
    {
      BottomRightOf(Tl(), w, h)
    }

    /** A new box of the given size at the origin. */
    constructor (w: int, h: int)
      requires ValidSize(w, h)
      ensures Valid()
      ensures this.w == w && this.h == h
      ensures Tl() == Origin
    {
      this.w, this.h := w, h;
      tlx, tly := 0, 0;
    }

    method SetTl(tl: Point)
      modifies this
      ensures Tl() == tl
    {
      tlx, tly := tl.0, tl.1;
    }

    /** Positions the box so that its centre is cp. */
    method SetCp(cp: Point)
      requires Valid()
      modifies this
      ensures Cp() == cp
      ensures Tl() == (cp.0 - w / 2, cp.1 - h / 2)
    {
      tlx, tly := cp.0 - w / 2, cp.1 - h / 2;
    }

    /** Positions the box so that its bottom-right corner is br. */
    method SetBr(br: Point)
      modifies this
      ensures Br() == br
      ensures Tl() == (br.0 - w, br.1 - h)
    {
      tlx, tly := br.0 - w, br.1 - h;
    }

    method MoveUp(pixels: int)
      modifies this
      ensures Tl() == (old(tlx), old(tly) - pixels)
    {
      tly := tly - pixels;
    }

    method MoveDown(pixels: int)
      modifies this
      ensures Tl() == (old(tlx), old(tly) + pixels)
    {
      tly := tly + pixels;
    }

    method MoveLeft(pixels: int)
      modifies this
      ensures Tl() == (old(tlx) - pixels, old(tly))
    {
      tlx := tlx - pixels;
    }

    method MoveRight(pixels: int)
      modifies this
      ensures Tl() == (old(tlx) + pixels, old(tly))
    {
      tlx := tlx + pixels;
    }
  }

}
