/** internal/icons/icons.go: clearing an icon's background by flood fill. Bounds start
    at (0, 0). */
module Icons {
  import opened Common

  datatype Point = Point(x: int, y: int)

  /** color.NRGBA: straight alpha, 8 bits a channel. */
  datatype Pixel = Pixel(r: byte, g: byte, b: byte, a: byte)

  /** What RGBA() returns: premultiplied, 16 bits a channel. */
  datatype Color = Color(r: int, g: int, b: int, a: int)

  const CLEAR := Pixel(0, 0, 0, 0)

  function Channel(c: byte, a: byte): int {
    (c as int) * 257 * (a as int) / 255
  }

  function Rgba(p: Pixel): Color {
    Color(Channel(p.r, p.a), Channel(p.g, p.a), Channel(p.b, p.a), (p.a as int) * 257)
  }

  /** Opaque pixels have the same colour exactly if they are the same, transparent ones
      all have, and none has that of an opaque one. */
  lemma RgbaSays(p: Pixel, q: Pixel)
    ensures p.a == 255 ==>
              Rgba(p) == Color((p.r as int) * 257, (p.g as int) * 257, (p.b as int) * 257, 255 * 257)
    ensures p.a == q.a == 255 ==> (Rgba(p) == Rgba(q) <==> p == q)
    ensures p.a == 0 ==> Rgba(p) == Color(0, 0, 0, 0)
    ensures Rgba(p).a == Rgba(q).a <==> p.a == q.a
  {
  }

  // ---- what the fill must clear ----

  predicate InBounds(p: Point, w: nat, h: nat) {
    0 <= p.x < w && 0 <= p.y < h
  }

  function Idx(p: Point, w: nat): int {
    p.y * w + p.x
  }

  lemma IdxBound(p: Point, w: nat, h: nat)
    requires InBounds(p, w, h)
    ensures 0 <= Idx(p, w) < w * h
  {
    assert p.y * w <= (h - 1) * w;
    assert 0 <= p.y * w;
  }

  lemma IdxInjective(p: Point, q: Point, w: nat, h: nat)
    requires InBounds(p, w, h) && InBounds(q, w, h) && Idx(p, w) == Idx(q, w)
    ensures p == q
  {
    if p.y < q.y {
      RowsDiffer(p.y, q.y, p.x, q.x, w);
    } else if q.y < p.y {
      RowsDiffer(q.y, p.y, q.x, p.x, w);
    }
  }

  lemma RowsDiffer(a: int, b: int, x: int, x': int, w: nat)
    requires a < b && 0 <= x < w && 0 <= x'
    ensures a * w + x < b * w + x'
  {
    assert (a + 1) * w <= b * w;
  }

  /** An image: its size and its pixels row by row. */
  datatype Image = Image(w: nat, h: nat, pixels: seq<Pixel>)

  ghost predicate Sized(img: Image) {
    img.w > 0 && img.h > 0 && |img.pixels| == img.w * img.h
  }

  ghost function PixelAt(img: Image, p: Point): Pixel
    requires Sized(img) && InBounds(p, img.w, img.h)
  {
    IdxBound(p, img.w, img.h);
    img.pixels[Idx(p, img.w)]
  }

  ghost predicate Background(img: Image, target: Color, p: Point)
    requires Sized(img)
  {
    InBounds(p, img.w, img.h) && Rgba(PixelAt(img, p)) == target
  }

  /** The border and the centre. */
  ghost predicate Seed(img: Image, p: Point)
    requires Sized(img)
  {
    || p.x == 0 || p.x == img.w - 1 || p.y == 0 || p.y == img.h - 1
    || p == Point(img.w / 2, img.h / 2)
  }

  ghost predicate Adjacent(p: Point, q: Point) {
    (p.x == q.x && (p.y == q.y + 1 || q.y == p.y + 1)) || (p.y == q.y && (p.x == q.x + 1 || q.x == p.x + 1))
  }

  /** path walks through background pixels from a seed. */
  ghost predicate IsWalk(img: Image, target: Color, path: seq<Point>)
    requires Sized(img)
  {
    && path != [] && Seed(img, path[0])
    && (forall k :: 0 <= k < |path| ==> Background(img, target, path[k]))
    && (forall k :: 0 <= k < |path| - 1 ==> Adjacent(path[k], path[k+1]))
  }

  ghost predicate Joined(img: Image, target: Color, p: Point)
    requires Sized(img)
  {
    exists path :: IsWalk(img, target, path) && path[|path|-1] == p
  }

  lemma SeedJoined(img: Image, target: Color, p: Point)
    requires Sized(img) && Seed(img, p) && Background(img, target, p)
    ensures Joined(img, target, p)
  {
    assert IsWalk(img, target, [p]);
  }

  lemma StepJoined(img: Image, target: Color, p: Point, q: Point)
    requires Sized(img) && Joined(img, target, p) && Adjacent(p, q) && Background(img, target, q)
    ensures Joined(img, target, q)
  {
    var path :| IsWalk(img, target, path) && path[|path|-1] == p;
    assert IsWalk(img, target, path + [q]);
    assert (path + [q])[|path + [q]|-1] == q;
  }

  /** A set with the background seeds, closed under background neighbours, holds
      every joined pixel. */
  lemma {:induction false} WalkStaysIn(img: Image, target: Color, s: seq<Point>, path: seq<Point>)
    requires Sized(img) && IsWalk(img, target, path)
    requires forall p :: Seed(img, p) && Background(img, target, p) ==> p in s
    requires forall p, q :: p in s && Adjacent(p, q) && Background(img, target, q) ==> q in s
    ensures path[|path|-1] in s
  {
    if |path| > 1 {
      var front := path[..|path|-1];
      assert IsWalk(img, target, front);
      WalkStaysIn(img, target, s, front);
      assert Adjacent(path[|path|-2], path[|path|-1]);
    }
  }

  // ---- the fill ----

  class Fill {
    const width: nat
    const height: nat
    const target: Color
    const dst: array<Pixel>
    const visited: array<bool>
    var queue: seq<Point>
    var head: nat
    ghost const before: Image

    ghost predicate Valid()
      reads this, dst, visited
    {
      && before.w == width && before.h == height && Sized(before)
      && dst.Length == visited.Length == width * height
      && target.a != 0
      && head <= |queue|
      && (forall k :: 0 <= k < |queue| ==> Background(before, target, queue[k]) && Joined(before, target, queue[k]))
      && (forall j, k :: 0 <= j < k < |queue| ==> queue[j] != queue[k])
      && VisitedOk() && PixelsOk()
    }

    /** visited marks exactly what was ever queued. */
    ghost predicate VisitedOk()
      requires visited.Length == width * height
      reads this, visited
    {
      forall p :: InBounds(p, width, height) ==> (IdxBound(p, width, height); visited[Idx(p, width)] <==> p in queue)
    }

    /** What was taken from the queue is clear, everything else is untouched. */
    ghost predicate PixelsOk()
      requires before.w == width && before.h == height && Sized(before) && dst.Length == width * height
      requires head <= |queue|
      reads this, dst
    {
      forall p :: InBounds(p, width, height) ==>
        (IdxBound(p, width, height); dst[Idx(p, width)] == if p in queue[..head] then CLEAR else PixelAt(before, p))
    }

    constructor (width: nat, height: nat, target: Color, dst: array<Pixel>)
      requires width > 0 && height > 0 && dst.Length == width * height && target.a != 0
      ensures Valid() && this.dst == dst && this.width == width && this.height == height && this.target == target
      ensures queue == [] && head == 0 && fresh(visited) && before == Image(width, height, dst[..])
    {
      this.width, this.height, this.target, this.dst := width, height, target, dst;
      queue, head := [], 0;
      visited := new bool[width * height](_ => false);
      before := Image(width, height, dst[..]);
      new;
      forall p | InBounds(p, width, height) ensures 0 <= Idx(p, width) < width * height {
        IdxBound(p, width, height);
      }
    }

    method IsTarget(x: int, y: int) returns (r: bool)
      requires Valid() && InBounds(Point(x, y), width, height)
      ensures Point(x, y) !in queue ==> r == Background(before, target, Point(x, y))
    {
      IdxBound(Point(x, y), width, height);
      r := Rgba(dst[y * width + x]) == target;
    }

    /** enqueue: a background pixel is queued the first time it is offered. */
    method Enqueue(x: int, y: int)
      requires Valid() && InBounds(Point(x, y), width, height)
      requires Background(before, target, Point(x, y)) ==> Joined(before, target, Point(x, y))
      modifies this`queue, visited
      ensures Valid() && old(queue) <= queue
      ensures Background(before, target, Point(x, y)) ==> Point(x, y) in queue
    {
      ghost var p := Point(x, y);
      IdxBound(p, width, height);
      var idx := y * width + x;
      if !visited[idx] {
        var t := IsTarget(x, y);
        if t {
          visited[idx] := true;
          queue := queue + [Point(x, y)];
          forall q | InBounds(q, width, height) && q != p ensures Idx(q, width) != idx {
            if Idx(q, width) == idx {
              IdxInjective(p, q, width, height);
            }
          }
          assert queue[..head] == old(queue)[..head];
        }
      }
    }

    /** A background pixel of the region has been queued. */
    ghost predicate Taken(p: Point)
      requires Sized(before)
      reads this`queue
    {
      Background(before, target, p) ==> p in queue
    }

    /** Enqueue at a seed. */
    method Offer(x: int, y: int)
      requires Valid() && InBounds(Point(x, y), width, height) && Seed(before, Point(x, y))
      modifies this`queue, visited
      ensures Valid() && old(queue) <= queue && Taken(Point(x, y))
    {
      if Background(before, target, Point(x, y)) {
        SeedJoined(before, target, Point(x, y));
      }
      Enqueue(x, y);
    }

    /** The border pixels and the centre are offered. */
    method SeedQueue()
      requires Valid()
      modifies this`queue, visited
      ensures Valid()
      ensures forall p :: Seed(before, p) ==> Taken(p)
    {
      for x := 0 to width
        invariant Valid() && old(queue) <= queue
        invariant forall p: Point :: p.x < x && (p.y == 0 || p.y == height - 1) ==> Taken(p)
      {
        Offer(x, 0);
        Offer(x, height - 1);
      }
      ghost var rows := queue;
      for y := 0 to height
        invariant Valid() && rows <= queue
        invariant forall p: Point :: p.y < y && (p.x == 0 || p.x == width - 1) ==> Taken(p)
      {
        Offer(0, y);
        Offer(width - 1, y);
      }
      var centre := IsTarget(width / 2, height / 2);
      if centre {
        Offer(width / 2, height / 2);
      }
    }

    /** The neighbours of p that are background have been queued. */
    ghost predicate Expanded(p: Point)
      requires Sized(before)
      reads this`queue
    {
      forall q :: Adjacent(p, q) ==> Taken(q)
    }

    method OfferNeighbour(p: Point, x: int, y: int)
      requires Valid() && InBounds(Point(x, y), width, height) && Adjacent(p, Point(x, y)) && p in queue
      modifies this`queue, visited
      ensures Valid() && old(queue) <= queue && Taken(Point(x, y))
    {
      if Background(before, target, Point(x, y)) {
        StepJoined(before, target, p, Point(x, y));
      }
      Enqueue(x, y);
    }

    method OfferNeighbours(p: Point)
      requires Valid() && p in queue
      modifies this`queue, visited
      ensures Valid() && old(queue) <= queue && Expanded(p)
    {
      OfferRow(p);
      label row:
      OfferColumn(p);
      forall q | Adjacent(p, q) ensures Taken(q) {
        assert q.y == p.y ==> old@row(Taken(q));
      }
    }

    method OfferColumn(p: Point)
      requires Valid() && p in queue
      modifies this`queue, visited
      ensures Valid() && old(queue) <= queue
      ensures forall q :: Adjacent(p, q) && q.x == p.x ==> Taken(q)
    {
      if p.y > 0 {
        OfferNeighbour(p, p.x, p.y - 1);
      }
      if p.y < height - 1 {
        OfferNeighbour(p, p.x, p.y + 1);
      }
      forall q | Adjacent(p, q) && q.x == p.x ensures Taken(q) {
        assert q == Point(p.x, p.y - 1) || q == Point(p.x, p.y + 1);
      }
    }

    method OfferRow(p: Point)
      requires Valid() && p in queue
      modifies this`queue, visited
      ensures Valid() && old(queue) <= queue
      ensures forall q :: Adjacent(p, q) && q.y == p.y ==> Taken(q)
    {
      if p.x > 0 {
        OfferNeighbour(p, p.x - 1, p.y);
      }
      if p.x < width - 1 {
        OfferNeighbour(p, p.x + 1, p.y);
      }
      forall q | Adjacent(p, q) && q.y == p.y ensures Taken(q) {
        assert q == Point(p.x - 1, p.y) || q == Point(p.x + 1, p.y);
      }
    }

    /** Takes the next pixel off the queue and clears it. */
    method Clear() returns (p: Point)
      requires Valid() && head < |queue|
      modifies this`head, dst
      ensures Valid() && head == old(head) + 1 && p == queue[old(head)]
    {
      p := queue[head];
      IdxBound(p, width, height);
      head := head + 1;
      dst[p.y * width + p.x] := CLEAR;
      assert queue[..head] == queue[..old(head)] + [p];
      forall q | InBounds(q, width, height) && q != p ensures Idx(q, width) != Idx(p, width) {
        if Idx(q, width) == Idx(p, width) {
          IdxInjective(p, q, width, height);
        }
      }
    }

    /** All seeds are queued, and all neighbours of what was taken off. */
    ghost predicate Progress()
      requires Sized(before) && head <= |queue|
      reads this`queue, this`head
    {
      && (forall p :: Seed(before, p) ==> Taken(p))
      && (forall k :: 0 <= k < head ==> Expanded(queue[k]))
    }

    /** One turn of the loop. */
    method Turn()
      requires Valid() && Progress() && head < |queue|
      modifies this`queue, this`head, dst, visited
      ensures Valid() && Progress() && old(queue) <= queue && head == old(head) + 1
    {
      var p := Clear();
      label cleared:
      OfferNeighbours(p);
      forall q | Seed(before, q) ensures Taken(q) {
        assert old(Taken(q));
      }
      forall k | 0 <= k < head ensures Expanded(queue[k]) {
        if k < head - 1 {
          forall q | Adjacent(queue[k], q) ensures Taken(q) {
            assert old(Expanded(queue[k]));
          }
        }
      }
    }

    /** The breadth-first loop: when it ends, exactly the joined pixels were
        queued, each of them once, and all of them are clear. */
    method Flood()
      requires Valid() && head == 0
      modifies this`queue, this`head, dst, visited
      ensures Valid() && head == |queue|
      ensures forall p :: p in queue <==> Joined(before, target, p)
    {
      SeedQueue();
      while head < |queue|
        invariant Valid() && Progress()
        decreases width * height - head
      {
        FewEnough();
        Turn();
      }
      forall p | Joined(before, target, p) ensures p in queue {
        var path :| IsWalk(before, target, path) && path[|path|-1] == p;
        forall p, q | p in queue && Adjacent(p, q) && Background(before, target, q) ensures q in queue {
          var k :| 0 <= k < |queue| && queue[k] == p;
          assert Expanded(queue[k]) && Taken(q);
        }
        forall p | Seed(before, p) && Background(before, target, p) ensures p in queue {
          assert Taken(p);
        }
        WalkStaysIn(before, target, queue, path);
      }
    }

    /** No pixel is queued twice, so the queue never outgrows the image. */
    lemma FewEnough()
      requires Valid()
      ensures |queue| <= width * height
    {
      var indices := seq(|queue|, k requires 0 <= k < |queue| reads this => Idx(queue[k], width));
      forall j, k | 0 <= j < k < |queue| ensures indices[j] != indices[k] {
        if indices[j] == indices[k] {
          IdxInjective(queue[j], queue[k], width, height);
        }
      }
      forall k | 0 <= k < |queue| ensures 0 <= indices[k] < width * height {
        IdxBound(queue[k], width, height);
      }
      DistinctBelow(indices, width * height);
    }
  }

  function Range(n: nat): (r: set<int>)
    ensures |r| == n && forall i :: i in r <==> 0 <= i < n
  {
    if n == 0 then {} else Range(n - 1) + {n - 1}
  }

  lemma DistinctBelow(s: seq<int>, n: nat)
    requires forall k :: 0 <= k < |s| ==> 0 <= s[k] < n
    requires forall j, k :: 0 <= j < k < |s| ==> s[j] != s[k]
    ensures |s| <= n
  {
    var mine := set k | 0 <= k < |s| :: s[k];
    ImageSize(s);
    SubsetSize(mine, Range(n));
  }

  lemma {:induction false} ImageSize(s: seq<int>)
    requires forall j, k :: 0 <= j < k < |s| ==> s[j] != s[k]
    ensures |set k | 0 <= k < |s| :: s[k]| == |s|
  {
    if s != [] {
      var front := s[..|s|-1];
      ImageSize(front);
      assert (set k | 0 <= k < |s| :: s[k]) == (set k | 0 <= k < |front| :: front[k]) + {s[|s|-1]};
    }
  }

  lemma {:induction false} SubsetSize<T>(a: set<T>, b: set<T>)
    requires a <= b
    ensures |a| <= |b|
  {
    if a != {} {
      var x :| x in a;
      SubsetSize(a - {x}, b - {x});
    }
  }

  /** makeBackgroundTransparent on a positive size: a pixel is cleared if and only
      if background-coloured steps join it to the border or the centre; every
      other pixel is untouched. target is the colour of the top left pixel. */
  method MakeBackgroundTransparent(dst: array<Pixel>, width: nat, height: nat, target: Color)
    requires width > 0 && height > 0 && dst.Length == width * height
    modifies dst
    ensures target.a == 0 ==> dst[..] == old(dst[..])
    ensures target.a != 0 ==> var before := Image(width, height, old(dst[..])); forall p: Point ::
              0 <= p.x < width && 0 <= p.y < height ==> (IdxBound(p, width, height);
                dst[Idx(p, width)] == if Joined(before, target, p) then CLEAR else PixelAt(before, p))
  {
    if target.a == 0 {
      return;
    }
    var fill := new Fill(width, height, target, dst);
    fill.Flood();
    assert fill.queue[..fill.head] == fill.queue;
  }
}
