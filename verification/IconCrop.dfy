/** internal/icons/icons.go: cropping an icon to the square around its content. A
    picture is indexed by row, then column. */
module IconCrop {
  import opened Icons

  /** The rows and columns of the content, ends included. */
  datatype Box = Box(minX: int, minY: int, maxX: int, maxY: int) {
    function W(): int { maxX - minX + 1 }
    function H(): int { maxY - minY + 1 }
    function Size(): int { if W() < H() then H() else W() }
    function OffsetX(): int { (Size() - W()) / 2 }
    function OffsetY(): int { (Size() - H()) / 2 }
  }

  predicate Visible(p: Pixel) {
    Rgba(p).a > 0
  }

  predicate Inside(x: int, y: int, img: array2<Pixel>) {
    0 <= y < img.Length0 && 0 <= x < img.Length1
  }

  predicate VisibleAt(img: array2<Pixel>, x: int, y: int)
    reads img
  {
    Inside(x, y, img) && Visible(img[y, x])
  }

  predicate InBox(box: Box, x: int, y: int) {
    box.minX <= x <= box.maxX && box.minY <= y <= box.maxY
  }

  /** The box holds all visible pixels, and each of its sides touches one. */
  ghost predicate Tight(img: array2<Pixel>, box: Box)
    reads img
  {
    && (forall x, y :: VisibleAt(img, x, y) ==> InBox(box, x, y))
    && (exists y :: VisibleAt(img, box.minX, y))
    && (exists y :: VisibleAt(img, box.maxX, y))
    && (exists x :: VisibleAt(img, x, box.minY))
    && (exists x :: VisibleAt(img, x, box.maxY))
  }

  /** Where the pixel of out at (x, y) comes from. */
  predicate Placed(box: Box, x: int, y: int) {
    InBox(box, x - box.OffsetX() + box.minX, y - box.OffsetY() + box.minY)
  }

  /** out is the square that holds the box in its middle and nothing else. */
  ghost predicate IsCrop(img: array2<Pixel>, box: Box, convert: Pixel -> Pixel, out: array2<Pixel>)
    reads img, out
  {
    && Tight(img, box)
    && out.Length0 == box.Size() && out.Length1 == box.Size()
    && forall x, y :: Inside(x, y, out) ==>
         out[y, x] ==
           if Placed(box, x, y) && Inside(x - box.OffsetX() + box.minX, y - box.OffsetY() + box.minY, img) then
             convert(img[y - box.OffsetY() + box.minY, x - box.OffsetX() + box.minX])
           else CLEAR
  }

  lemma BoxInside(img: array2<Pixel>, box: Box)
    requires Tight(img, box)
    ensures 0 <= box.minX <= box.maxX < img.Length1 && 0 <= box.minY <= box.maxY < img.Length0
  {
    var a :| VisibleAt(img, box.minX, a);
    var b :| VisibleAt(img, box.maxX, b);
    var c :| VisibleAt(img, c, box.minY);
    var d :| VisibleAt(img, d, box.maxY);
  }

  /** There is only one such box. */
  lemma TightUnique(img: array2<Pixel>, a: Box, b: Box)
    requires Tight(img, a) && Tight(img, b)
    ensures a == b
  {
    BoxHeld(img, a, b);
    BoxHeld(img, b, a);
  }

  lemma BoxHeld(img: array2<Pixel>, a: Box, b: Box)
    requires Tight(img, a) && Tight(img, b)
    ensures b.minX <= a.minX && a.maxX <= b.maxX && b.minY <= a.minY && a.maxY <= b.maxY
  {
    var y1 :| VisibleAt(img, a.minX, y1);
    var y2 :| VisibleAt(img, a.maxX, y2);
    var x1 :| VisibleAt(img, x1, a.minY);
    var x2 :| VisibleAt(img, x2, a.maxY);
    assert InBox(b, a.minX, y1) && InBox(b, a.maxX, y2) && InBox(b, x1, a.minY) && InBox(b, x2, a.maxY);
  }

  /** The conversion of the drawing step leaves clear pixels clear and visible ones
      visible. */
  ghost predicate KeepsVisibility(convert: Pixel -> Pixel) {
    convert(CLEAR) == CLEAR && forall p :: Visible(convert(p)) <==> Visible(p)
  }

  /** Nothing visible is lost, and nothing becomes visible: the crop moves visible
      pixels by one vector. */
  lemma ContentMoves(img: array2<Pixel>, box: Box, convert: Pixel -> Pixel, out: array2<Pixel>, x: int, y: int)
    requires IsCrop(img, box, convert, out) && KeepsVisibility(convert)
    ensures VisibleAt(img, x, y) <==>
              VisibleAt(out, x - box.minX + box.OffsetX(), y - box.minY + box.OffsetY())
    ensures VisibleAt(img, x, y) ==>
              out[y - box.minY + box.OffsetY(), x - box.minX + box.OffsetX()] == convert(img[y, x])
  {
    BoxInside(img, box);
    assert !Visible(CLEAR);
    var x', y' := x - box.minX + box.OffsetX(), y - box.minY + box.OffsetY();
    assert x' - box.OffsetX() + box.minX == x && y' - box.OffsetY() + box.minY == y;
    if VisibleAt(img, x, y) {
      assert InBox(box, x, y);
      assert Inside(x', y', out);
    }
  }

  /** Where the content of a crop stands. */
  function Middle(box: Box): Box {
    Box(box.OffsetX(), box.OffsetY(), box.OffsetX() + box.W() - 1, box.OffsetY() + box.H() - 1)
  }

  lemma CropIsTight(img: array2<Pixel>, box: Box, convert: Pixel -> Pixel, out: array2<Pixel>)
    requires IsCrop(img, box, convert, out) && KeepsVisibility(convert)
    ensures Tight(out, Middle(box))
  {
    var dx, dy := box.OffsetX() - box.minX, box.OffsetY() - box.minY;
    forall x, y | VisibleAt(out, x, y) ensures InBox(Middle(box), x, y) {
      ContentMoves(img, box, convert, out, x - dx, y - dy);
    }
    var y1 :| VisibleAt(img, box.minX, y1);
    MovedTo(img, box, convert, out, box.minX, y1, Middle(box).minX, y1 + dy);
    var y2 :| VisibleAt(img, box.maxX, y2);
    MovedTo(img, box, convert, out, box.maxX, y2, Middle(box).maxX, y2 + dy);
    var x1 :| VisibleAt(img, x1, box.minY);
    MovedTo(img, box, convert, out, x1, box.minY, x1 + dx, Middle(box).minY);
    var x2 :| VisibleAt(img, x2, box.maxY);
    MovedTo(img, box, convert, out, x2, box.maxY, x2 + dx, Middle(box).maxY);
  }

  lemma MovedTo(img: array2<Pixel>, box: Box, convert: Pixel -> Pixel, out: array2<Pixel>, x: int, y: int, x': int,
                y': int)
    requires IsCrop(img, box, convert, out) && KeepsVisibility(convert) && VisibleAt(img, x, y)
    requires x' == x - box.minX + box.OffsetX() && y' == y - box.minY + box.OffsetY()
    ensures VisibleAt(out, x', y')
  {
    ContentMoves(img, box, convert, out, x, y);
  }

  /** The crop is the smallest square the content fits in, and the content stands in its
      middle: opposite margins differ by at most one pixel, the smaller one first, and one
      of the two pairs is empty. */
  lemma CropCentred(img: array2<Pixel>, box: Box, convert: Pixel -> Pixel, out: array2<Pixel>) returns (m: Box)
    requires IsCrop(img, box, convert, out) && KeepsVisibility(convert)
    ensures Tight(out, m) && out.Length0 == out.Length1
    ensures m.maxX - m.minX == box.maxX - box.minX && m.maxY - m.minY == box.maxY - box.minY
    ensures var left, right := m.minX, out.Length1 - 1 - m.maxX;
            var above, below := m.minY, out.Length0 - 1 - m.maxY;
            && 0 <= left <= right <= left + 1 && 0 <= above <= below <= above + 1
            && (left == right == 0 || above == below == 0)
  {
    m := Middle(box);
    CropIsTight(img, box, convert, out);
    BoxInside(img, box);
  }

  /** Cropping a crop changes nothing. */
  lemma CropAgain(img: array2<Pixel>, box: Box, convert: Pixel -> Pixel, out: array2<Pixel>,
                  box': Box, out': array2<Pixel>)
    requires IsCrop(img, box, convert, out) && IsCrop(out, box', convert, out')
    requires KeepsVisibility(convert) && forall p :: convert(convert(p)) == convert(p)
    ensures out'.Length0 == out.Length0 && out'.Length1 == out.Length1
    ensures forall x, y :: Inside(x, y, out) ==> out'[y, x] == out[y, x]
  {
    CropIsTight(img, box, convert, out);
    TightUnique(out, Middle(box), box');
    BoxInside(img, box);
    MiddleStays(box);
    forall x, y | Inside(x, y, out) ensures out'[y, x] == out[y, x] {
      PixelStays(img, box, convert, out, out', x, y);
    }
  }

  lemma PixelStays(img: array2<Pixel>, box: Box, convert: Pixel -> Pixel, out: array2<Pixel>, out': array2<Pixel>,
                   x: int, y: int)
    requires IsCrop(img, box, convert, out) && IsCrop(out, Middle(box), convert, out') && Inside(x, y, out)
    requires box.minX <= box.maxX && box.minY <= box.maxY && convert(convert(CLEAR)) == convert(CLEAR) == CLEAR
    requires forall p :: convert(convert(p)) == convert(p)
    ensures Inside(x, y, out') && out'[y, x] == out[y, x]
  {
    MiddleStays(box);
  }

  /** The content of a crop is moved by nothing in the next crop. */
  lemma MiddleStays(box: Box)
    requires box.minX <= box.maxX && box.minY <= box.maxY
    ensures var m := Middle(box);
            && m.Size() == box.Size() && m.OffsetX() == m.minX && m.OffsetY() == m.minY
            && forall x, y :: Placed(m, x, y) <==> Placed(box, x, y)
  {
  }

  // ---- the loops ----

  /** What the scan knows after some pixels: seen holds of those looked at. */
  ghost predicate Scanned(img: array2<Pixel>, rows: int, cols: int, found: bool, box: Box)
    reads img
  {
    && (forall x, y :: Looked(x, y, rows, cols) && VisibleAt(img, x, y) ==> found && InBox(box, x, y))
    && (found ==>
          && (exists y :: VisibleAt(img, box.minX, y))
          && (exists y :: VisibleAt(img, box.maxX, y))
          && (exists x :: VisibleAt(img, x, box.minY))
          && (exists x :: VisibleAt(img, x, box.maxY)))
    && (!found ==> box == Box(img.Length1, img.Length0, 0, 0))
  }

  predicate Looked(x: int, y: int, rows: int, cols: int) {
    y < rows || (y == rows && x < cols)
  }

  function Widened(box: Box, x: int, y: int): Box {
    Box(if x < box.minX then x else box.minX, if y < box.minY then y else box.minY,
        if x > box.maxX then x else box.maxX, if y > box.maxY then y else box.maxY)
  }

  lemma ScanOne(img: array2<Pixel>, x: int, y: int, found: bool, box: Box)
    requires Inside(x, y, img) && Scanned(img, y, x, found, box)
    ensures if VisibleAt(img, x, y) then Scanned(img, y, x + 1, true, Widened(box, x, y))
            else Scanned(img, y, x + 1, found, box)
  {
    if VisibleAt(img, x, y) {
      var box' := Widened(box, x, y);
      forall u, v | Looked(u, v, y, x + 1) && VisibleAt(img, u, v) ensures InBox(box', u, v) {
        if u != x || v != y {
          assert Looked(u, v, y, x);
        }
      }
      WidenedTouches(img, x, y, found, box);
    } else {
      forall u, v | Looked(u, v, y, x + 1) && VisibleAt(img, u, v) ensures found && InBox(box, u, v) {
        assert Looked(u, v, y, x);
      }
    }
  }

  lemma WidenedTouches(img: array2<Pixel>, x: int, y: int, found: bool, box: Box)
    requires VisibleAt(img, x, y) && Scanned(img, y, x, found, box)
    ensures var b := Widened(box, x, y);
            && (exists v :: VisibleAt(img, b.minX, v)) && (exists v :: VisibleAt(img, b.maxX, v))
            && (exists u :: VisibleAt(img, u, b.minY)) && (exists u :: VisibleAt(img, u, b.maxY))
  {
    var b := Widened(box, x, y);
    assert !found ==> b == Box(x, y, x, y);
    assert b.minX == x ==> VisibleAt(img, b.minX, y);
    assert b.maxX == x ==> VisibleAt(img, b.maxX, y);
    assert b.minY == y ==> VisibleAt(img, x, b.minY);
    assert b.maxY == y ==> VisibleAt(img, x, b.maxY);
  }

  method ContentBox(img: array2<Pixel>) returns (found: bool, box: Box)
    ensures found ==> Tight(img, box)
    ensures !found ==> forall x, y :: !VisibleAt(img, x, y)
  {
    box, found := Box(img.Length1, img.Length0, 0, 0), false;
    for y := 0 to img.Length0
      invariant Scanned(img, y, 0, found, box)
    {
      for x := 0 to img.Length1
        invariant Scanned(img, y, x, found, box)
      {
        ScanOne(img, x, y, found, box);
        if Rgba(img[y, x]).a > 0 {
          box := Widened(box, x, y);
          found := true;
        }
      }
      assert forall u, v :: Looked(u, v, y + 1, 0) && VisibleAt(img, u, v) ==> Looked(u, v, y, img.Length1);
    }
    assert forall u, v :: VisibleAt(img, u, v) ==> Looked(u, v, img.Length0, 0);
  }

  /** Without content the picture itself; else the crop to its tight box. */
  method CropToContentSquare(img: array2<Pixel>, convert: Pixel -> Pixel) returns (out: array2<Pixel>, ghost box: Box)
    ensures if exists x, y :: VisibleAt(img, x, y) then fresh(out) && IsCrop(img, box, convert, out) else out == img
  {
    var found, b := ContentBox(img);
    box := b;
    if !found {
      return img, box;
    }
    BoxInside(img, b);
    assert exists x, y :: VisibleAt(img, x, y);
    var size := b.Size();
    out := new Pixel[size, size]((_, _) => CLEAR);
    Draw(img, b, convert, out);
  }

  method Draw(img: array2<Pixel>, b: Box, convert: Pixel -> Pixel, out: array2<Pixel>)
    requires out != img && Drawn(img, b, convert, out, 0, 0) && Tight(img, b)
    modifies out
    ensures IsCrop(img, b, convert, out)
  {
    BoxInside(img, b);
    for y := 0 to b.H()
      invariant Tight(img, b) && Drawn(img, b, convert, out, y, 0)
    {
      for x := 0 to b.W()
        invariant Tight(img, b) && Drawn(img, b, convert, out, y, x)
      {
        DrawPixel(img, b, convert, out, y, x);
      }
      NextRow(img, b, convert, out, y);
    }
  }

  lemma NextRow(img: array2<Pixel>, b: Box, convert: Pixel -> Pixel, out: array2<Pixel>, y: int)
    requires Drawn(img, b, convert, out, y, b.W())
    ensures Drawn(img, b, convert, out, y + 1, 0)
  {
    forall u, v | Inside(u, v, out) && Placed(b, u, v)
      ensures Looked(u - b.OffsetX(), v - b.OffsetY(), y, b.W()) <==> Looked(u - b.OffsetX(), v - b.OffsetY(), y + 1, 0)
    {
    }
  }

  method DrawPixel(img: array2<Pixel>, b: Box, convert: Pixel -> Pixel, out: array2<Pixel>, y: int, x: int)
    requires out != img && 0 <= b.minX <= b.maxX < img.Length1 && 0 <= b.minY <= b.maxY < img.Length0
    requires 0 <= y < b.H() && 0 <= x < b.W() && Drawn(img, b, convert, out, y, x)
    modifies out
    ensures Drawn(img, b, convert, out, y, x + 1)
  {
    out[b.OffsetY() + y, b.OffsetX() + x] := convert(img[b.minY + y, b.minX + x]);
  }

  ghost predicate Drawn(img: array2<Pixel>, box: Box, convert: Pixel -> Pixel, out: array2<Pixel>, rows: int, cols: int)
    reads img, out
  {
    && out.Length0 == box.Size() && out.Length1 == box.Size()
    && forall x, y :: Inside(x, y, out) ==>
         out[y, x] ==
           if Placed(box, x, y) && Looked(x - box.OffsetX(), y - box.OffsetY(), rows, cols)
              && Inside(x - box.OffsetX() + box.minX, y - box.OffsetY() + box.minY, img) then
             convert(img[y - box.OffsetY() + box.minY, x - box.OffsetX() + box.minX])
           else CLEAR
  }
}
