/** The eight image orientations of internal/media: applyOrientation and how they compose. */
module Orientation {
  import opened Common

  /** Where output pixel (x, y) comes from in a w by h source. */
  function SrcX(o: int, w: nat, h: nat, x: int, y: int): int {
    if o == 2 || o == 3 then w - 1 - x else if o == 5 || o == 6 then y else if o == 7 || o == 8 then w - 1 - y else x
  }

  function SrcY(o: int, w: nat, h: nat, x: int, y: int): int {
    if o == 3 || o == 4 then h - 1 - y else if o == 5 || o == 8 then x else if o == 6 || o == 7 then h - 1 - x else y
  }

  predicate Swaps(o: int) { 5 <= o <= 8 }

  /** A w by h image; `rows` is its pixels row by row. */
  datatype Image<T> = Image(w: nat, h: nat, rows: seq<seq<T>>) {
    ghost predicate Valid() { |rows| == h && forall y | 0 <= y < h :: |rows[y]| == w }
  }

  lemma SourceInBounds(o: int, w: nat, h: nat, x: nat, y: nat)
    requires 1 <= o <= 8 && x < (if Swaps(o) then h else w) && y < (if Swaps(o) then w else h)
    ensures 0 <= SrcX(o, w, h, x, y) < w && 0 <= SrcY(o, w, h, x, y) < h
  {}

  ghost function Turn<T>(o: int, img: Image<T>): (out: Image<T>)
    requires 1 <= o <= 8 && img.Valid()
    ensures out.Valid()
    ensures out.w == (if Swaps(o) then img.h else img.w) && out.h == (if Swaps(o) then img.w else img.h)
  {
    var w, h := if Swaps(o) then img.h else img.w, if Swaps(o) then img.w else img.h;
    Image(w, h, seq(h, y requires 0 <= y < h => seq(w, x requires 0 <= x < w =>
      img.rows[SrcY(o, img.w, img.h, x, y)][SrcX(o, img.w, img.h, x, y)])))
  }

  // ---------------------------------------------------------------- what the eight values mean

  datatype Side = Top | Bottom | Left | Right

  /** TIFF 6.0, section 8: the side of the picture at which the stored row 0 lies. */
  function RowZero(o: int): Side
    requires 1 <= o <= 8
  {
    [Top, Top, Bottom, Bottom, Left, Right, Right, Left][o - 1]
  }

  /** And the side at which the stored column 0 lies. */
  function ColumnZero(o: int): Side
    requires 1 <= o <= 8
  {
    [Left, Right, Right, Left, Top, Top, Bottom, Bottom][o - 1]
  }

  /** How far pixel (x, y) of a w by h picture is from one of its sides. */
  function DistanceFrom(side: Side, w: int, h: int, x: int, y: int): int {
    match side case Top => y case Bottom => h - 1 - y case Left => x case Right => w - 1 - x
  }

  /** The picture shows the stored pixel of row r and column c as far from the side of row 0 as r says, and
      from the side of column 0 as c says. */
  lemma TurnedAsDefined<T>(o: int, img: Image<T>, x: nat, y: nat)
    requires 1 <= o <= 8 && img.Valid() && x < Turn(o, img).w && y < Turn(o, img).h
    ensures var out := Turn(o, img);
            var r := DistanceFrom(RowZero(o), out.w, out.h, x, y);
            var c := DistanceFrom(ColumnZero(o), out.w, out.h, x, y);
            && (if RowZero(o) in {Left, Right} then out.w == img.h && out.h == img.w
                else out.w == img.w && out.h == img.h)
            && 0 <= r < img.h && 0 <= c < img.w && out.rows[y][x] == img.rows[r][c]
  {}

  /** The pixels of a raster whose upper left corner is (minX, minY), as an image. */
  ghost function Pixels<T>(pix: array2<T>): (img: Image<T>)
    reads pix
    ensures img.Valid() && img.w == pix.Length1 && img.h == pix.Length0
    ensures forall x, y | 0 <= x < img.w && 0 <= y < img.h :: img.rows[y][x] == pix[y, x]
  {
    Image(pix.Length1, pix.Length0, seq(pix.Length0, y requires 0 <= y < pix.Length0 reads pix =>
      seq(pix.Length1, x requires 0 <= x < pix.Length1 reads pix => pix[y, x])))
  }

  /** A decoded image: its pixels are addressed from its own bounds. */
  class Raster<T> {
    const minX: int
    const minY: int
    const pix: array2<T>

    constructor (minX: int, minY: int, pix: array2<T>)
      ensures this.minX == minX && this.minY == minY && this.pix == pix
    {
      this.minX, this.minY, this.pix := minX, minY, pix;
    }

    function Get(x: int, y: int): T
      requires minX <= x < minX + pix.Length1 && minY <= y < minY + pix.Length0
      reads pix
    {
      pix[y - minY, x - minX]
    }
  }

  /** applyOrientation: the source itself for 1 and for anything out of range. */
  method ApplyOrientation<T(0)>(src: Raster<T>, orientation: int) returns (dst: Raster<T>)
    ensures Pixels(dst.pix) == Turn(if 2 <= orientation <= 8 then orientation else 1, Pixels(src.pix))
    ensures 2 <= orientation <= 8 ==> fresh(dst) && dst.minX == 0 && dst.minY == 0
    ensures !(2 <= orientation <= 8) ==> dst == src
  {
    if orientation < 2 || orientation > 8 {
      TurnOne(Pixels(src.pix));
      return src;
    }
    var srcWidth, srcHeight := src.pix.Length1, src.pix.Length0;
    var outWidth, outHeight := srcWidth, srcHeight;
    if orientation >= 5 && orientation <= 8 {
      outWidth, outHeight := srcHeight, srcWidth;
    }
    var out := new T[outHeight, outWidth];
    for y := 0 to outHeight
      invariant forall j, i | 0 <= j < y && 0 <= i < outWidth ::
                  out[j, i] == SourcePixel(src.pix, orientation, i, j)
    {
      for x := 0 to outWidth
        invariant forall j, i | 0 <= j < y && 0 <= i < outWidth ::
                    out[j, i] == SourcePixel(src.pix, orientation, i, j)
        invariant forall i | 0 <= i < x :: out[y, i] == SourcePixel(src.pix, orientation, i, y)
      {
        var srcX, srcY := x, y;
        match orientation {
          case 2 => srcX, srcY := srcWidth - 1 - x, y;
          case 3 => srcX, srcY := srcWidth - 1 - x, srcHeight - 1 - y;
          case 4 => srcX, srcY := x, srcHeight - 1 - y;
          case 5 => srcX, srcY := y, x;
          case 6 => srcX, srcY := y, srcHeight - 1 - x;
          case 7 => srcX, srcY := srcWidth - 1 - y, srcHeight - 1 - x;
          case _ => srcX, srcY := srcWidth - 1 - y, x;
        }
        SourceInBounds(orientation, srcWidth, srcHeight, x, y);
        out[y, x] := src.Get(src.minX + srcX, src.minY + srcY);
      }
    }
    dst := new Raster(0, 0, out);
    TurnedPixels(src.pix, orientation, out);
  }

  /** A raster filled pixel by pixel from the source is the turned image. */
  lemma TurnedPixels<T>(pix: array2<T>, o: int, out: array2<T>)
    requires 2 <= o <= 8 && out.Length0 == (if Swaps(o) then pix.Length1 else pix.Length0)
    requires out.Length1 == (if Swaps(o) then pix.Length0 else pix.Length1)
    requires forall y, x | 0 <= y < out.Length0 && 0 <= x < out.Length1 :: out[y, x] == SourcePixel(pix, o, x, y)
    ensures Pixels(out) == Turn(o, Pixels(pix))
  {
    var a, b := Pixels(out), Turn(o, Pixels(pix));
    forall y | 0 <= y < a.h ensures a.rows[y] == b.rows[y] {
      forall x | 0 <= x < a.w ensures a.rows[y][x] == b.rows[y][x] {
        assert out[y, x] == SourcePixel(pix, o, x, y);
        SourceInBounds(o, pix.Length1, pix.Length0, x, y);
      }
    }
  }

  ghost function SourcePixel<T>(pix: array2<T>, o: int, x: nat, y: nat): T
    requires 2 <= o <= 8 && x < (if Swaps(o) then pix.Length0 else pix.Length1) &&
             y < (if Swaps(o) then pix.Length1 else pix.Length0)
    reads pix
  {
    SourceInBounds(o, pix.Length1, pix.Length0, x, y);
    pix[SrcY(o, pix.Length1, pix.Length0, x, y), SrcX(o, pix.Length1, pix.Length0, x, y)]
  }

  // ---------------------------------------------------------------- one reading of every pixel

  /** The orientation that undoes `o`. */
  function Inverse(o: int): int { if o == 6 then 8 else if o == 8 then 6 else o }

  /** Every source pixel is read for exactly one output pixel: the one the inverse names. */
  lemma EverySourceOnce(o: int, w: nat, h: nat, sx: nat, sy: nat, x: nat, y: nat)
    requires 1 <= o <= 8 && sx < w && sy < h
    requires x < (if Swaps(o) then h else w) && y < (if Swaps(o) then w else h)
    ensures var ow, oh := if Swaps(o) then h else w, if Swaps(o) then w else h;
            (SrcX(o, w, h, x, y) == sx && SrcY(o, w, h, x, y) == sy)
            <==> (x == SrcX(Inverse(o), ow, oh, sx, sy) && y == SrcY(Inverse(o), ow, oh, sx, sy))
  {}

  // ---------------------------------------------------------------- the group

  /** An orientation as a reflection of x, a reflection of y, and a transposition before them. */
  predicate FlipsX(o: int) { o == 2 || o == 3 || o == 7 || o == 8 }

  predicate FlipsY(o: int) { o == 3 || o == 4 || o == 6 || o == 7 }

  function FromFlips(swaps: bool, flipX: bool, flipY: bool): int {
    if swaps then (if flipX then (if flipY then 7 else 8) else if flipY then 6 else 5)
    else (if flipX then (if flipY then 3 else 2) else if flipY then 4 else 1)
  }

  /** The one orientation equal to applying `first` and then `second`. */
  function Compose(first: int, second: int): int {
    var fx := if Swaps(first) then FlipsY(second) else FlipsX(second);
    var fy := if Swaps(first) then FlipsX(second) else FlipsY(second);
    FromFlips(Swaps(first) != Swaps(second), FlipsX(first) != fx, FlipsY(first) != fy)
  }

  lemma ComposedSource(first: int, second: int, w: nat, h: nat, x: int, y: int)
    requires 1 <= first <= 8 && 1 <= second <= 8
    ensures var mw, mh := if Swaps(first) then h else w, if Swaps(first) then w else h;
            var mx, my := SrcX(second, mw, mh, x, y), SrcY(second, mw, mh, x, y);
            && SrcX(first, w, h, mx, my) == SrcX(Compose(first, second), w, h, x, y)
            && SrcY(first, w, h, mx, my) == SrcY(Compose(first, second), w, h, x, y)
  {}

  /** Two orientations one after the other are one orientation, for every image. */
  lemma TurnTwice<T>(first: int, second: int, img: Image<T>)
    requires 1 <= first <= 8 && 1 <= second <= 8 && img.Valid()
    ensures 1 <= Compose(first, second) <= 8
    ensures Turn(second, Turn(first, img)) == Turn(Compose(first, second), img)
  {
    var mid := Turn(first, img);
    var a, b := Turn(second, mid), Turn(Compose(first, second), img);
    forall y | 0 <= y < a.h ensures a.rows[y] == b.rows[y] {
      forall x | 0 <= x < a.w ensures a.rows[y][x] == b.rows[y][x] {
        ComposedSource(first, second, img.w, img.h, x, y);
        SourceInBounds(second, mid.w, mid.h, x, y);
      }
    }
  }

  lemma TurnOne<T>(img: Image<T>)
    requires img.Valid()
    ensures Turn(1, img) == img
  {
    var one := Turn(1, img);
    forall y | 0 <= y < img.h ensures one.rows[y] == img.rows[y] {}
  }

  /** 2, 3, 4, 5 and 7 undo themselves, 6 and 8 undo each other. */
  lemma TurnBack<T>(o: int, img: Image<T>)
    requires 1 <= o <= 8 && img.Valid()
    ensures Turn(Inverse(o), Turn(o, img)) == img
  {
    TurnTwice(o, Inverse(o), img);
    TurnOne(img);
  }
}
