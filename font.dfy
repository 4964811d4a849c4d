/** The glyph pages of the game font and the glyph cache built over them:
    where a character's glyph sits on its page, how a glyph cell is trimmed
    to its ink, how obfuscated and bold glyphs are derived, and the two
    caches of `RuneFont`. */
module Font {
  import opened Base
  import opened Define

  newtype byte = x: int | 0 <= x < 256

  /** One RGBA pixel. */
  datatype Pixel = Pixel(r: byte, g: byte, b: byte, a: byte)

  const Transparent: Pixel := Pixel(0, 0, 0, 0)

  /** An RGBA bitmap, stored row by row. */
  datatype Image = Image(width: nat, height: nat, rows: seq<seq<Pixel>>)

  predicate WellFormed(img: Image) {
    |img.rows| == img.height && forall y :: 0 <= y < |img.rows| ==> |img.rows[y]| == img.width
  }

  /** A fresh bitmap of the image library: every pixel transparent black. */
  function Blank(w: nat, h: nat): (img: Image)
    ensures WellFormed(img) && img.width == w && img.height == h
  {
    Image(w, h, seq(h, _ => seq(w, _ => Transparent)))
  }

  /** The part of `img` inside the w × h rectangle at (x, y), the rectangle
      first clipped to the image, as the image library's `crop_imm` does. */
  function Crop(img: Image, x: nat, y: nat, w: nat, h: nat): (r: Image)
    requires WellFormed(img)
    ensures WellFormed(r)
    ensures r.width == Min(w, img.width - Min(x, img.width))
    ensures r.height == Min(h, img.height - Min(y, img.height))
    ensures forall j, i :: 0 <= j < r.height && 0 <= i < r.width ==>
              y + j < img.height && x + i < img.width && r.rows[j][i] == img.rows[y + j][x + i]
  {
    var x0: nat := Min(x, img.width);
    var y0: nat := Min(y, img.height);
    var w0: nat := Min(w, img.width - x0);
    var h0: nat := Min(h, img.height - y0);
    Image(w0, h0, seq(h0, j requires 0 <= j < h0 =>
                        seq(w0, i requires 0 <= i < w0 => img.rows[y0 + j][x0 + i])))
  }

  // ---------------------------------------------------------------------
  // Where a glyph lives

  /** `rune_to_idx`: the page (code point >> 8), the row (bits 4 to 7) and
      the column (bits 0 to 3) of the first character's glyph; the empty
      string maps to (0, 0, 0). On non-negative codes `>> 8` is `/ 256`,
      `(code & 0xF0) >> 4` is `code % 256 / 16` and `code & 0xF` is `code % 16`. */
  function RuneToIdx(rune: string): (idx: (nat, nat, nat))
    ensures rune == [] ==> idx == (0, 0, 0)
    ensures rune != [] ==> idx.1 < 16 && idx.2 < 16 && idx.0 * 256 + idx.1 * 16 + idx.2 == rune[0] as int
  {
    if rune == [] then (0, 0, 0)
    else
      var code := rune[0] as int;
      (code / 256, code % 256 / 16, code % 16)
  }

  /** `idx_to_rune`: the character at a page, row and column, its code cut
      to 16 bits; a code that is a surrogate, and so no character, gives a
      space. The index must fit the source's 32-bit arithmetic. */
  function IdxToRune(group: nat, row: nat, col: nat): (rune: string)
    requires group * 256 + row * 16 + col < 0x1_0000_0000
    ensures |rune| == 1
    ensures var code := (group * 256 + row * 16 + col) % 0x1_0000;
      if 0xD800 <= code < 0xE000 then rune == " " else rune[0] as int == code
  {
    var code := (group * 256 + row * 16 + col) % 0x1_0000;
    if 0xD800 <= code < 0xE000 then " " else [code as char]
  }

  /** Every character of the basic plane comes back from its own glyph index. */
  lemma RuneIdxRoundTrip(ch: char)
    requires ch as int < 0x1_0000
    ensures var idx := RuneToIdx([ch]);
      idx.0 * 256 + idx.1 * 16 + idx.2 < 0x1_0000_0000 && IdxToRune(idx.0, idx.1, idx.2) == [ch]
  {
    var idx := RuneToIdx([ch]);
    var code := idx.0 * 256 + idx.1 * 16 + idx.2;
    assert code == ch as int;
    assert code % 0x1_0000 == code;
    assert !(0xD800 <= code < 0xE000);
    var rune := IdxToRune(idx.0, idx.1, idx.2);
    assert rune[0] as int == ch as int;
  }

  // ---------------------------------------------------------------------
  // Colour test of a page

  predicate Gray(p: Pixel) {
    p.r == p.g && p.g == p.b
  }

  predicate Grayscale(img: Image)
    requires WellFormed(img)
  {
    forall y, x :: 0 <= y < img.height && 0 <= x < img.width ==> Gray(img.rows[y][x])
  }

  /** `is_grayscale`: no pixel whose red, green and blue differ. */
  method IsGrayscale(img: Image) returns (gray: bool)
    requires WellFormed(img)
    ensures gray == Grayscale(img)
  {
    for y := 0 to img.height
      invariant forall j, x :: 0 <= j < y && 0 <= x < img.width ==> Gray(img.rows[j][x])
    {
      for x := 0 to img.width
        invariant forall i :: 0 <= i < x ==> Gray(img.rows[y][i])
      {
        var p := img.rows[y][x];
        if p.r != p.g || p.g != p.b {
          return false;
        }
      }
    }
    return true;
  }

  // ---------------------------------------------------------------------
  // Bounding box of the ink

  predicate Opaque(img: Image, x: int, y: int)
    requires WellFormed(img)
  {
    0 <= y < img.height && 0 <= x < img.width && img.rows[y][x].a > 0
  }

  /** Pixel (x, y) comes before pixel (n, m) in row-major order. */
  predicate Before(x: int, y: int, n: int, m: int) {
    y < m || (y == m && x < n)
  }

  /** The variables of `get_bbox` during its scan. */
  datatype BoxScan = BoxScan(found: bool, minX: int, minY: int, maxX: int, maxY: int)

  function BoxStart(img: Image): BoxScan {
    BoxScan(false, img.width, img.height, 0, 0)
  }

  /** One pixel of the scan: an inked pixel widens the box to cover it. */
  function BoxStep(st: BoxScan, x: int, y: int, p: Pixel): BoxScan {
    if p.a > 0 then BoxScan(true, Min(st.minX, x), Min(st.minY, y), Max(st.maxX, x), Max(st.maxY, y))
    else st
  }

  /** The scan continued over the first `n` pixels of row `y`. */
  function RowBox(st: BoxScan, img: Image, y: nat, n: nat): BoxScan
    requires WellFormed(img) && y < img.height && n <= img.width
  {
    if n == 0 then st else BoxStep(RowBox(st, img, y, n - 1), n - 1, y, img.rows[y][n - 1])
  }

  /** The scan over the first `m` rows. */
  function ImageBox(img: Image, m: nat): BoxScan
    requires WellFormed(img) && m <= img.height
  {
    if m == 0 then BoxStart(img) else RowBox(ImageBox(img, m - 1), img, m - 1, img.width)
  }

  /** The result of `get_bbox`: (x1, y1, x2, y2) with exclusive upper ends. */
  function Bbox(img: Image): Option<(int, int, int, int)>
    requires WellFormed(img)
  {
    var st := ImageBox(img, img.height);
    if st.found then Some((st.minX, st.minY, st.maxX + 1, st.maxY + 1)) else None
  }

  /** Some pixel of column x is inked. */
  ghost predicate ColumnInked(img: Image, x: int)
    requires WellFormed(img)
  {
    exists y :: Opaque(img, x, y)
  }

  /** Some pixel of row y is inked. */
  ghost predicate RowInked(img: Image, y: int)
    requires WellFormed(img)
  {
    exists x :: Opaque(img, x, y)
  }

  /** What the scan knows once every pixel before (n, m) is seen: whether
      one was inked, a box around all of them that were, and that each side
      of the box touches ink. */
  ghost predicate BoxInv(img: Image, st: BoxScan, n: int, m: int)
    requires WellFormed(img)
  {
    && (st.found <==> exists x, y :: Before(x, y, n, m) && Opaque(img, x, y))
    && (forall x, y :: Before(x, y, n, m) && Opaque(img, x, y) ==>
          st.minX <= x <= st.maxX && st.minY <= y <= st.maxY)
    && (st.found ==>
          ColumnInked(img, st.minX) && ColumnInked(img, st.maxX) &&
          RowInked(img, st.minY) && RowInked(img, st.maxY))
    && (!st.found ==> st == BoxStart(img))
  }

  lemma BoxStartInv(img: Image)
    requires WellFormed(img)
    ensures BoxInv(img, BoxStart(img), 0, 0)
  {
  }

  /** Seeing an inked pixel at (n, m) keeps the invariant. */
  lemma BoxInkInv(img: Image, st: BoxScan, n: nat, m: nat)
    requires WellFormed(img) && m < img.height && n < img.width
    requires BoxInv(img, st, n, m) && Opaque(img, n, m)
    ensures BoxInv(img, BoxStep(st, n, m, img.rows[m][n]), n + 1, m)
  {
    var st' := BoxStep(st, n, m, img.rows[m][n]);
    assert Before(n, m, n + 1, m);
    forall x, y | Before(x, y, n + 1, m) && Opaque(img, x, y)
      ensures st'.minX <= x <= st'.maxX && st'.minY <= y <= st'.maxY
    {
      if !(x == n && y == m) { assert Before(x, y, n, m); }
    }
    assert ColumnInked(img, n) && RowInked(img, m);
  }

  /** Seeing a clear pixel at (n, m) keeps the invariant. */
  lemma BoxClearInv(img: Image, st: BoxScan, n: nat, m: nat)
    requires WellFormed(img) && m < img.height && n < img.width
    requires BoxInv(img, st, n, m) && !Opaque(img, n, m)
    ensures BoxInv(img, BoxStep(st, n, m, img.rows[m][n]), n + 1, m)
  {
    forall x, y | Before(x, y, n + 1, m) && Opaque(img, x, y)
      ensures Before(x, y, n, m)
    {
    }
  }

  /** A full row seen is the same as the next row not yet begun. */
  lemma BoxRowInv(img: Image, st: BoxScan, m: nat)
    requires WellFormed(img) && m < img.height
    requires BoxInv(img, st, img.width, m)
    ensures BoxInv(img, st, 0, m + 1)
  {
    forall x, y | Opaque(img, x, y)
      ensures Before(x, y, img.width, m) == Before(x, y, 0, m + 1)
    {
    }
  }

  lemma {:induction false} RowBoxInv(img: Image, st: BoxScan, m: nat, n: nat)
    requires WellFormed(img) && m < img.height && n <= img.width
    requires BoxInv(img, st, 0, m)
    ensures BoxInv(img, RowBox(st, img, m, n), n, m)
    decreases n
  {
    if n > 0 {
      RowBoxInv(img, st, m, n - 1);
      if Opaque(img, n - 1, m) {
        BoxInkInv(img, RowBox(st, img, m, n - 1), n - 1, m);
      } else {
        BoxClearInv(img, RowBox(st, img, m, n - 1), n - 1, m);
      }
    }
  }

  lemma {:induction false} ImageBoxInv(img: Image, m: nat)
    requires WellFormed(img) && m <= img.height
    ensures BoxInv(img, ImageBox(img, m), 0, m)
    decreases m
  {
    if m == 0 {
      BoxStartInv(img);
    } else {
      ImageBoxInv(img, m - 1);
      RowBoxInv(img, ImageBox(img, m - 1), m - 1, img.width);
      BoxRowInv(img, RowBox(ImageBox(img, m - 1), img, m - 1, img.width), m - 1);
    }
  }

  /** `get_bbox` finds no box exactly when no pixel is inked; otherwise its
      box lies in the image, holds every inked pixel, and each of its four
      sides touches one. */
  lemma BboxTight(img: Image)
    requires WellFormed(img)
    ensures Bbox(img).None? <==> forall x, y :: !Opaque(img, x, y)
    ensures Bbox(img).Some? ==>
      var (x1, y1, x2, y2) := Bbox(img).value;
      && 0 <= x1 < x2 <= img.width && 0 <= y1 < y2 <= img.height
      && (forall x, y :: Opaque(img, x, y) ==> x1 <= x < x2 && y1 <= y < y2)
      && ColumnInked(img, x1) && ColumnInked(img, x2 - 1) && RowInked(img, y1) && RowInked(img, y2 - 1)
  {
    var st := ImageBox(img, img.height);
    ImageBoxInv(img, img.height);
    forall x, y | Opaque(img, x, y)
      ensures Before(x, y, 0, img.height)
    {
    }
    if st.found {
      var y2 :| Opaque(img, st.maxX, y2);
      var x2 :| Opaque(img, x2, st.maxY);
      assert st.maxX + 1 - 1 == st.maxX && st.maxY + 1 - 1 == st.maxY;
    }
  }

  /** `get_bbox`, scanning the pixels row by row. */
  method GetBbox(img: Image) returns (box: Option<(int, int, int, int)>)
    requires WellFormed(img)
    ensures box == Bbox(img)
  {
    var minX: int, minY: int, maxX: int, maxY: int := img.width, img.height, 0, 0;
    var found := false;
    for y := 0 to img.height
      invariant BoxScan(found, minX, minY, maxX, maxY) == ImageBox(img, y)
    {
      for x := 0 to img.width
        invariant BoxScan(found, minX, minY, maxX, maxY) == RowBox(ImageBox(img, y), img, y, x)
      {
        var p := img.rows[y][x];
        if p.a > 0 {
          found := true;
          minX := Min(minX, x);
          minY := Min(minY, y);
          maxX := Max(maxX, x);
          maxY := Max(maxY, y);
        }
      }
    }
    if found {
      box := Some((minX, minY, maxX + 1, maxY + 1));
    } else {
      box := None;
    }
  }

  // ---------------------------------------------------------------------
  // Trimming a cell

  const CELL_SIZE: nat := 32
  const CELL_HEIGHT: nat := 31
  const PAGE_SIZE: nat := 512

  /** The horizontal extent `tight_font` keeps: the inked columns, or the
      first SPACE_WIDTH columns of a cell without ink. */
  function TightColumns(square: Image): (cols: (nat, nat))
    requires WellFormed(square)
    ensures cols.0 <= cols.1
  {
    BboxTight(square);
    match Bbox(square)
    case Some(b) => (b.0, b.2)
    case None => (0, SPACE_WIDTH)
  }

  function Tight(square: Image): (r: Image)
    requires WellFormed(square)
    ensures WellFormed(r)
  {
    var (x1, x2) := TightColumns(square);
    Crop(square, x1, 0, x2 - x1, CELL_HEIGHT)
  }

  /** `tight_font`. */
  method TightFont(square: Image) returns (r: Image)
    requires WellFormed(square)
    ensures r == Tight(square)
  {
    var bbox := GetBbox(square);
    BboxTight(square);
    var x1: nat, x2: nat;
    if bbox.Some? {
      x1, x2 := bbox.value.0, bbox.value.2;
    } else {
      x1, x2 := 0, SPACE_WIDTH;
    }
    r := Crop(square, x1, 0, x2 - x1, CELL_HEIGHT);
  }

  /** Trimming a 32 × 31 cell keeps 31 rows and exactly the inked columns
      (SPACE_WIDTH blank columns, clipped to the cell, when there is no ink):
      every inked pixel survives, shifted left by the first inked column,
      and the first and last kept columns hold ink. */
  lemma TightKeepsInk(square: Image)
    requires WellFormed(square) && square.width == CELL_SIZE && square.height == CELL_HEIGHT
    ensures var t := Tight(square);
      && t.height == CELL_HEIGHT
      && (Bbox(square).None? ==> t.width == Min(SPACE_WIDTH, CELL_SIZE))
      && (Bbox(square).Some? ==>
            var x1, x2 := Bbox(square).value.0, Bbox(square).value.2;
            && t.width == x2 - x1
            && (forall x, y :: Opaque(square, x, y) ==> x1 <= x < x2 && t.rows[y][x - x1] == square.rows[y][x])
            && ColumnInked(t, 0) && ColumnInked(t, t.width - 1))
  {
    BboxTight(square);
    if Bbox(square).Some? {
      var x1, x2 := Bbox(square).value.0, Bbox(square).value.2;
      TightIsCrop(square);
      CropInkShift(square, x1, x2);
      TightEdgesInked(square);
    }
  }

  lemma TightIsCrop(square: Image)
    requires WellFormed(square) && Bbox(square).Some?
    ensures TightColumns(square) == (Bbox(square).value.0, Bbox(square).value.2)
    ensures Tight(square) == Crop(square, TightColumns(square).0, 0, TightColumns(square).1 - TightColumns(square).0, CELL_HEIGHT)
  {
    BboxTight(square);
  }

  /** An inked pixel of a window holding all the ink survives its crop. */
  lemma CropInkShift(square: Image, x1: nat, x2: nat)
    requires WellFormed(square) && square.height == CELL_HEIGHT && x1 <= x2 <= square.width
    requires forall x, y :: Opaque(square, x, y) ==> x1 <= x < x2
    ensures var t := Crop(square, x1, 0, x2 - x1, CELL_HEIGHT);
      forall x, y :: Opaque(square, x, y) ==> x1 <= x < x2 && t.rows[y][x - x1] == square.rows[y][x]
  {
    forall x, y | Opaque(square, x, y)
      ensures x1 <= x < x2 && Crop(square, x1, 0, x2 - x1, CELL_HEIGHT).rows[y][x - x1] == square.rows[y][x]
    {
      CropKeeps(square, x1, x2 - x1, CELL_HEIGHT, x, y);
    }
  }

  /** A pixel inside a crop window that starts at the top row, seen from the crop. */
  lemma CropKeeps(img: Image, x0: nat, w: nat, h: nat, x: nat, y: nat)
    requires WellFormed(img) && x0 <= x < x0 + w && x0 + w <= img.width && y < h <= img.height
    ensures var t := Crop(img, x0, 0, w, h);
      t.width == w && t.height == h && t.rows[y][x - x0] == img.rows[y][x]
  {
    var t := Crop(img, x0, 0, w, h);
    assert t.rows[y][x - x0] == img.rows[0 + y][x0 + (x - x0)];
  }

  lemma TightEdgesInked(square: Image)
    requires WellFormed(square) && square.height == CELL_HEIGHT && Bbox(square).Some?
    ensures var t := Tight(square);
      t.width == Bbox(square).value.2 - Bbox(square).value.0 && ColumnInked(t, 0) && ColumnInked(t, t.width - 1)
  {
    BboxTight(square);
    var t := Tight(square);
    var (x1, x2) := (Bbox(square).value.0, Bbox(square).value.2);
    assert t.width == x2 - x1;
    var ya :| Opaque(square, x1, ya);
    var yb :| Opaque(square, x2 - 1, yb);
    assert t.rows[ya][0] == square.rows[ya][x1];
    assert Opaque(t, 0, ya);
    assert t.rows[yb][x2 - 1 - x1] == square.rows[yb][x2 - 1];
    assert Opaque(t, t.width - 1, yb);
  }

  // ---------------------------------------------------------------------
  // Styles

  /** An obfuscated glyph: every pixel coloured (1, 1, 1), its alpha kept. */
  function Obfuscated(img: Image): (r: Image)
    requires WellFormed(img)
    ensures WellFormed(r) && r.width == img.width && r.height == img.height
  {
    Image(img.width, img.height, seq(img.height, y requires 0 <= y < img.height =>
      seq(img.width, x requires 0 <= x < img.width => Pixel(1, 1, 1, img.rows[y][x].a))))
  }

  /** The obfuscation loop of `get_font`, rewriting every pixel's colour. */
  method Obfuscate(img: Image) returns (r: Image)
    requires WellFormed(img)
    ensures r == Obfuscated(img)
  {
    var rows := img.rows;
    for y := 0 to img.height
      invariant |rows| == img.height
      invariant forall j :: 0 <= j < y ==> rows[j] == Obfuscated(img).rows[j]
      invariant forall j :: y <= j < img.height ==> rows[j] == img.rows[j]
    {
      var row := rows[y];
      for x := 0 to img.width
        invariant |row| == img.width
        invariant forall i :: 0 <= i < x ==> row[i] == Pixel(1, 1, 1, img.rows[y][i].a)
        invariant forall i :: x <= i < img.width ==> row[i] == img.rows[y][i]
      {
        row := row[x := Pixel(1, 1, 1, row[x].a)];
      }
      rows := rows[y := row];
    }
    r := Image(img.width, img.height, rows);
  }

  /** Obfuscation keeps the glyph's shape and changes nothing the second time. */
  lemma ObfuscateIdempotent(img: Image)
    requires WellFormed(img)
    ensures forall y, x :: Opaque(img, x, y) <==> Opaque(Obfuscated(img), x, y)
    ensures Obfuscated(Obfuscated(img)) == Obfuscated(img)
  {
    var o := Obfuscated(img);
    var oo := Obfuscated(o);
    forall y | 0 <= y < img.height
      ensures oo.rows[y] == o.rows[y]
    {
    }
  }

  /** The pixel of a bold glyph. The copies a pixel leaves one column to its
      right are overwritten by that column's own pixel, so only the extra
      column after the last one keeps one; the column after that stays clear. */
  function BoldPixel(img: Image, x: nat, y: nat): Pixel
    requires WellFormed(img) && y < img.height
  {
    if x < img.width then img.rows[y][x]
    else if x == img.width && img.width > 0 then img.rows[y][img.width - 1]
    else Transparent
  }

  /** A bold glyph: two columns wider, pixels as `BoldPixel` says. */
  function Bolded(img: Image): (r: Image)
    requires WellFormed(img)
    ensures WellFormed(r) && r.width == img.width + 2 && r.height == img.height
  {
    Image(img.width + 2, img.height, seq(img.height, y requires 0 <= y < img.height =>
      seq(img.width + 2, x requires 0 <= x < img.width + 2 => BoldPixel(img, x, y))))
  }

  /** One row of the bold loop of `get_font`: each pixel written at its own
      column and at the next, into a row that starts clear. */
  method BoldRow(img: Image, y: nat, row0: seq<Pixel>) returns (row: seq<Pixel>)
    requires WellFormed(img) && y < img.height
    requires row0 == seq(img.width + 2, _ => Transparent)
    ensures row == Bolded(img).rows[y]
  {
    var w, pad := img.width, 2;
    row := row0;
    for x := 0 to w
      invariant |row| == w + pad
      invariant forall i :: 0 <= i < x ==> row[i] == img.rows[y][i]
      invariant x > 0 ==> row[x] == img.rows[y][x - 1]
      invariant forall i :: x + (if x > 0 then 1 else 0) <= i < w + pad ==> row[i] == Transparent
    {
      var pixel := img.rows[y][x];
      for off := 0 to pad
        invariant |row| == w + pad
        invariant forall i :: 0 <= i < x ==> row[i] == img.rows[y][i]
        invariant forall i :: x <= i < x + off ==> row[i] == pixel
        invariant off == 0 && x > 0 ==> row[x] == img.rows[y][x - 1]
        invariant forall i :: x + Max(off, if x > 0 then 1 else 0) <= i < w + pad ==> row[i] == Transparent
      {
        if x + off < w + pad {
          row := row[x + off := pixel];
        }
      }
    }
  }

  /** The bold loop of `get_font`, writing into a clear bitmap two columns wider. */
  method Bold(img: Image) returns (r: Image)
    requires WellFormed(img)
    ensures r == Bolded(img)
  {
    var h, w := img.height, img.width;
    var rows := Blank(w + 2, h).rows;
    for y := 0 to h
      invariant |rows| == h
      invariant forall j :: 0 <= j < y ==> rows[j] == Bolded(img).rows[j]
      invariant forall j :: y <= j < h ==> rows[j] == seq(w + 2, _ => Transparent)
    {
      var row := BoldRow(img, y, rows[y]);
      rows := rows[y := row];
    }
    r := Image(w + 2, h, rows);
  }

  /** A bold glyph begins with the glyph itself, unchanged, and adds one copy
      of its last column and one clear column: strokes are not thickened. */
  lemma BoldKeepsGlyph(img: Image)
    requires WellFormed(img)
    ensures Crop(Bolded(img), 0, 0, img.width, img.height) == img
    ensures forall y :: 0 <= y < img.height ==>
      Bolded(img).rows[y][img.width + 1] == Transparent &&
      (img.width > 0 ==> Bolded(img).rows[y][img.width] == img.rows[y][img.width - 1])
  {
    var c := Crop(Bolded(img), 0, 0, img.width, img.height);
    forall y | 0 <= y < img.height
      ensures c.rows[y] == img.rows[y]
    {
    }
  }

  // ---------------------------------------------------------------------
  // Pages and glyphs

  /** What the page file of a group holds: no file, a file that cannot be
      decoded, or a decoded page already scaled to 512 × 512. */
  datatype PageFile = Missing | Unreadable | Loaded(page: Image)

  ghost predicate PagesScaled(pages: nat -> PageFile) {
    forall g :: pages(g).Loaded? ==>
      WellFormed(pages(g).page) && pages(g).page.width == PAGE_SIZE && pages(g).page.height == PAGE_SIZE
  }

  /** `get_group` without its cache: a missing file gives a blank page that
      is not coloured, an unreadable one nothing, a decoded one itself and
      whether any pixel has colour. */
  ghost function GroupSpec(pages: nat -> PageFile, g: nat): (r: Option<(Image, bool)>)
    requires PagesScaled(pages)
    ensures r.Some? ==> WellFormed(r.value.0) && r.value.0.width == PAGE_SIZE && r.value.0.height == PAGE_SIZE
  {
    match pages(g)
    case Missing => Some((Blank(PAGE_SIZE, PAGE_SIZE), false))
    case Unreadable => None
    case Loaded(p) => Some((p, !Grayscale(p)))
  }

  /** The source's `Font`: a glyph bitmap and whether its page is coloured. */
  datatype Glyph = Glyph(mat: Image, colored: bool)

  /** The style flags `get_font` honours, on a glyph of a page without
      colour: obfuscation first, then bold. */
  function Styled(font: Glyph, fmt: bv32): (r: Glyph)
    requires WellFormed(font.mat)
    ensures WellFormed(r.mat) && r.colored == font.colored
  {
    if fmt != 0 && !font.colored then
      var m1 := if fmt & 0x100 != 0 then Obfuscated(font.mat) else font.mat;
      var m2 := if fmt & 0x200 != 0 then Bolded(m1) else m1;
      Glyph(m2, font.colored)
    else font
  }

  /** A glyph can be made: its page decodes, or the space's page does. */
  ghost predicate GlyphDefined(pages: nat -> PageFile, rune: string) {
    !pages(RuneToIdx(rune).0).Unreadable? || !pages(0).Unreadable?
  }

  /** `get_font` without its caches: the cell of the glyph, trimmed and
      styled; a glyph whose page does not decode is the space's. */
  ghost function GlyphSpec(pages: nat -> PageFile, rune: string, fmt: bv32): (r: Glyph)
    requires PagesScaled(pages) && GlyphDefined(pages, rune)
    ensures WellFormed(r.mat)
    decreases if pages(RuneToIdx(rune).0).Unreadable? then 1 else 0
  {
    var (g, row, col) := RuneToIdx(rune);
    match GroupSpec(pages, g)
    case Some((png, colored)) => Styled(Glyph(Tight(Crop(png, col * CELL_SIZE, row * CELL_SIZE, CELL_SIZE, CELL_HEIGHT)), colored), fmt)
    case None => GlyphSpec(pages, " ", fmt)
  }

  /** One unfolding of `GlyphSpec`, by the page of the glyph's group. */
  lemma GlyphUnfold(pages: nat -> PageFile, rune: string, fmt: bv32)
    requires PagesScaled(pages) && GlyphDefined(pages, rune)
    ensures var (g, row, col) := RuneToIdx(rune);
      GlyphSpec(pages, rune, fmt) ==
        if GroupSpec(pages, g).Some? then
          Styled(Glyph(Tight(Crop(GroupSpec(pages, g).value.0, col * CELL_SIZE, row * CELL_SIZE, CELL_SIZE, CELL_HEIGHT)),
                       GroupSpec(pages, g).value.1), fmt)
        else GlyphSpec(pages, " ", fmt)
  {
  }

  /** The cell at row `row`, column `col` of a 512 × 512 page lies wholly
      inside the page: the crop is never clipped, and it is the page's
      pixels from `(col * 32, row * 32)` on. */
  lemma CellInsidePage(png: Image, row: nat, col: nat)
    requires WellFormed(png) && png.width == PAGE_SIZE && png.height == PAGE_SIZE
    requires row < 16 && col < 16
    ensures var cell := Crop(png, col * CELL_SIZE, row * CELL_SIZE, CELL_SIZE, CELL_HEIGHT);
      cell.width == CELL_SIZE && cell.height == CELL_HEIGHT
      && forall j, i :: 0 <= j < CELL_HEIGHT && 0 <= i < CELL_SIZE ==>
           cell.rows[j][i] == png.rows[row * CELL_SIZE + j][col * CELL_SIZE + i]
  {
    assert row * CELL_SIZE <= 15 * 32 && col * CELL_SIZE <= 15 * 32;
  }

  /** Every glyph is 31 rows high and at most 34 columns wide, 32 of them
      the cell's and two more for bold. */
  lemma GlyphShape(pages: nat -> PageFile, rune: string, fmt: bv32)
    requires PagesScaled(pages) && GlyphDefined(pages, rune)
    ensures GlyphSpec(pages, rune, fmt).mat.height == CELL_HEIGHT
    ensures GlyphSpec(pages, rune, fmt).mat.width <= CELL_SIZE + 2
    decreases if pages(RuneToIdx(rune).0).Unreadable? then 1 else 0
  {
    var (g, row, col) := RuneToIdx(rune);
    match GroupSpec(pages, g)
    case Some((png, colored)) =>
      var cell := Crop(png, col * CELL_SIZE, row * CELL_SIZE, CELL_SIZE, CELL_HEIGHT);
      CellInsidePage(png, row, col);
      var t := Tight(cell);
      assert t.height == CELL_HEIGHT && t.width <= CELL_SIZE;
    case None =>
      GlyphShape(pages, " ", fmt);
  }

  /** The glyph at row r, column c of a page, trimmed and, on a page without
      colour, styled: the part of `get_font` that runs on a loaded page. */
  method CutGlyph(png: Image, colored: bool, r: nat, c: nat, fmt: bv32) returns (font: Glyph)
    requires WellFormed(png)
    ensures font == Styled(Glyph(Tight(Crop(png, c * CELL_SIZE, r * CELL_SIZE, CELL_SIZE, CELL_HEIGHT)), colored), fmt)
  {
    var cropped := Crop(png, c * CELL_SIZE, r * CELL_SIZE, CELL_SIZE, CELL_HEIGHT);
    var tighted := TightFont(cropped);
    font := Glyph(tighted, colored);
    if fmt != 0 && !font.colored {
      if fmt & 0x100 != 0 {
        var m := Obfuscate(font.mat);
        font := font.(mat := m);
      }
      if fmt & 0x200 != 0 {
        var m := Bold(font.mat);
        font := font.(mat := m);
      }
    }
  }

  /** The glyph store: page files by group, and the two caches of `RuneFont`. */
  class RuneFont {
    const pages: nat -> PageFile
    var cachedGroup: map<nat, (Image, bool)>
    var cachedRune: map<(string, bv32), Glyph>

    /** Every cached page and glyph is what loading it afresh would give. */
    ghost predicate Valid()
      reads this
    {
      && PagesScaled(pages)
      && (forall g :: g in cachedGroup ==> GroupSpec(pages, g) == Some(cachedGroup[g]))
      && (forall k :: k in cachedRune ==> GlyphDefined(pages, k.0) && cachedRune[k] == GlyphSpec(pages, k.0, k.1))
    }

    constructor (pages: nat -> PageFile)
      requires PagesScaled(pages)
      ensures Valid() && this.pages == pages
      ensures cachedGroup == map[] && cachedRune == map[]
    {
      this.pages := pages;
      cachedGroup := map[];
      cachedRune := map[];
    }

    /** `get_group`: the cached page, or the page loaded and, unless it does
        not decode, cached. */
    method GetGroup(g: nat) returns (page: Option<(Image, bool)>)
      requires Valid()
      modifies this
      ensures Valid() && page == GroupSpec(pages, g)
      ensures cachedRune == old(cachedRune)
      ensures page.Some? ==> cachedGroup == old(cachedGroup)[g := page.value]
      ensures page.None? ==> cachedGroup == old(cachedGroup)
    {
      if g in cachedGroup {
        page := Some(cachedGroup[g]);
        assert cachedGroup == cachedGroup[g := page.value];
        return;
      }
      match pages(g)
      case Missing =>
        var empty := Blank(PAGE_SIZE, PAGE_SIZE);
        cachedGroup := cachedGroup[g := (empty, false)];
        page := Some((empty, false));
      case Unreadable =>
        page := None;
      case Loaded(resized) =>
        var gray := IsGrayscale(resized);
        var colored := !gray;
        cachedGroup := cachedGroup[g := (resized, colored)];
        page := Some((resized, colored));
    }

    /** `get_font`: the cached glyph, or the glyph made and cached. Whatever
        the caches hold, the glyph is the same, so caching never changes a
        result; entries are only ever added. */
    method GetFont(rune: string, fmt: bv32) returns (font: Glyph)
      requires Valid() && GlyphDefined(pages, rune)
      modifies this
      decreases if pages(RuneToIdx(rune).0).Unreadable? then 1 else 0
      ensures Valid() && font == GlyphSpec(pages, rune, fmt)
      ensures (rune, fmt) in cachedRune && cachedRune[(rune, fmt)] == font
      ensures forall k :: k in old(cachedRune) ==> k in cachedRune && cachedRune[k] == old(cachedRune)[k]
      ensures cachedRune.Keys <= old(cachedRune).Keys + {(rune, fmt), (" ", fmt)}
    {
      var key := (rune, fmt);
      if key in cachedRune {
        return cachedRune[key];
      }
      var (g, r, c) := RuneToIdx(rune);
      var page := GetGroup(g);
      GlyphUnfold(pages, rune, fmt);
      if page.Some? {
        font := CutGlyph(page.value.0, page.value.1, r, c, fmt);
      } else {
        font := GetFont(" ", fmt);
      }
      Remember(rune, fmt, font);
    }

    /** Caching a glyph that is what making it afresh gives keeps the caches valid. */
    method Remember(rune: string, fmt: bv32, font: Glyph)
      requires Valid() && GlyphDefined(pages, rune) && font == GlyphSpec(pages, rune, fmt)
      modifies this
      ensures Valid() && cachedGroup == old(cachedGroup)
      ensures cachedRune == old(cachedRune)[(rune, fmt) := font]
    {
      cachedRune := cachedRune[(rune, fmt) := font];
    }
  }
}
