/** The pixel logic of the skin editor in the main menu: the bucket tool's
    flood fill over the canvas ImageData, the decoding of the colour picker's
    `#rrggbb` value, and the snapping of the pencil to the brush grid. */
module SkinEditor {
  import opened Common

  /** One channel of the canvas buffer (an element of a Uint8ClampedArray). */
  type Byte = b: int | 0 <= b < 256

  /** A pixel coordinate on the canvas. */
  datatype Point = Point(x: int, y: int)

  /** The four channels of one pixel, as the buffer stores them. */
  datatype Rgba = Rgba(r: Byte, g: Byte, b: Byte, a: Byte)

  predicate InCanvas(w: nat, h: nat, p: Point)
  {
    0 <= p.x < w && 0 <= p.y < h
  }

  /** Every pixel of a w by h canvas. */
  ghost function Canvas(w: nat, h: nat): set<Point>
  {
    set x: int, y: int | 0 <= x < w && 0 <= y < h :: Point(x, y)
  }

  /** The index of the red channel of pixel p: `(y * w + x) * 4`. */
  function Offset(w: nat, h: nat, p: Point): (i: nat)
    requires InCanvas(w, h, p)
    ensures i % 4 == 0 && i + 4 <= 4 * w * h
  {
    OffsetBound(w, h, p.x, p.y);
    (p.y * w + p.x) * 4
  }

  lemma OffsetBound(w: nat, h: nat, x: int, y: int)
    requires 0 <= x < w && 0 <= y < h
    ensures 0 <= y * w + x && (y * w + x) * 4 + 4 <= 4 * w * h
  {
    var n := h * w;
    assert (y + 1) * w <= n by { MulMono(y + 1, h, w); }
    assert (y + 1) * w == y * w + w;
    assert 4 * w * h == 4 * n;
  }

  lemma MulMono(a: int, b: int, c: nat)
    requires a <= b
    ensures a * c <= b * c
  {
    assert b * c - a * c == (b - a) * c;
  }

  /** Two different pixels own disjoint groups of four bytes. */
  lemma OffsetInjective(w: nat, h: nat, p: Point, q: Point)
    requires InCanvas(w, h, p) && InCanvas(w, h, q) && p != q
    ensures Offset(w, h, p) != Offset(w, h, q)
  {
    var i, j := p.y * w + p.x, q.y * w + q.x;
    if p.y < q.y {
      MulMono(p.y + 1, q.y, w);
      assert (p.y + 1) * w == p.y * w + w;
      assert i < j;
    } else if q.y < p.y {
      MulMono(q.y + 1, p.y, w);
      assert (q.y + 1) * w == q.y * w + w;
      assert j < i;
    }
    assert Offset(w, h, p) == i * 4 && Offset(w, h, q) == j * 4;
  }

  /** The colour of pixel p in the buffer s. */
  function ColorAt(s: seq<Byte>, w: nat, h: nat, p: Point): Rgba
    requires |s| == 4 * w * h && InCanvas(w, h, p)
  {
    var i := Offset(w, h, p);
    Rgba(s[i], s[i + 1], s[i + 2], s[i + 3])
  }

  /** The colour a four-entry colour array stands for. */
  function ToRgba(c: seq<Byte>): Rgba
    requires |c| == 4
  {
    Rgba(c[0], c[1], c[2], c[3])
  }

  /** p and q share an edge. */
  predicate Adjacent(p: Point, q: Point)
  {
    (p.x == q.x && (p.y == q.y + 1 || q.y == p.y + 1)) ||
    (p.y == q.y && (p.x == q.x + 1 || q.x == p.x + 1))
  }

  /** `path` walks from pixel to edge-adjacent pixel, and every pixel on it
      has colour `target` in s. */
  ghost predicate IsPath(s: seq<Byte>, w: nat, h: nat, target: Rgba, path: seq<Point>)
    requires |s| == 4 * w * h
  {
    && |path| > 0
    && (forall k :: 0 <= k < |path| ==> InCanvas(w, h, path[k]) && ColorAt(s, w, h, path[k]) == target)
    && (forall k :: 0 <= k < |path| - 1 ==> Adjacent(path[k], path[k + 1]))
  }

  /** p is 4-connected to `start` through pixels of start's colour: the region
      a bucket fill at `start` is meant to recolour. */
  ghost predicate Reachable(s: seq<Byte>, w: nat, h: nat, start: Point, p: Point)
    requires |s| == 4 * w * h
  {
    && InCanvas(w, h, start)
    && exists path :: IsPath(s, w, h, ColorAt(s, w, h, start), path) && path[0] == start && path[|path| - 1] == p
  }

  lemma ReachableStart(s: seq<Byte>, w: nat, h: nat, start: Point)
    requires |s| == 4 * w * h && InCanvas(w, h, start)
    ensures Reachable(s, w, h, start, start)
  {
    assert IsPath(s, w, h, ColorAt(s, w, h, start), [start]);
  }

  /** A region grows by an adjacent pixel of the start colour. */
  lemma ReachableStep(s: seq<Byte>, w: nat, h: nat, start: Point, p: Point, q: Point)
    requires |s| == 4 * w * h
    requires Reachable(s, w, h, start, p) && Adjacent(p, q) && InCanvas(w, h, q)
    requires ColorAt(s, w, h, q) == ColorAt(s, w, h, start)
    ensures Reachable(s, w, h, start, q)
  {
    var target := ColorAt(s, w, h, start);
    var path :| IsPath(s, w, h, target, path) && path[0] == start && path[|path| - 1] == p;
    var path' := path + [q];
    assert IsPath(s, w, h, target, path');
  }

  /** Every pixel of a path lies in the region. */
  lemma ReachableAlongPath(s: seq<Byte>, w: nat, h: nat, target: Rgba, path: seq<Point>, k: nat)
    requires |s| == 4 * w * h && IsPath(s, w, h, target, path) && k < |path|
    ensures Reachable(s, w, h, path[0], path[k])
  {
    var prefix := path[..k + 1];
    assert IsPath(s, w, h, target, prefix);
  }

  /** Every reachable pixel has the start pixel's colour. */
  lemma ReachableHasTargetColor(s: seq<Byte>, w: nat, h: nat, start: Point, p: Point)
    requires |s| == 4 * w * h && Reachable(s, w, h, start, p)
    ensures InCanvas(w, h, p) && ColorAt(s, w, h, p) == ColorAt(s, w, h, start)
  {
    var path :| IsPath(s, w, h, ColorAt(s, w, h, start), path) && path[0] == start && path[|path| - 1] == p;
    assert path[|path| - 1] == p;
  }

  /** p has an edge-neighbour inside the canvas that lies in the region. */
  ghost predicate NextToRegion(s: seq<Byte>, w: nat, h: nat, start: Point, p: Point)
    requires |s| == 4 * w * h
  {
    || (p.x > 0 && Reachable(s, w, h, start, Point(p.x - 1, p.y)))
    || (p.x < w - 1 && Reachable(s, w, h, start, Point(p.x + 1, p.y)))
    || (p.y > 0 && Reachable(s, w, h, start, Point(p.x, p.y - 1)))
    || (p.y < h - 1 && Reachable(s, w, h, start, Point(p.x, p.y + 1)))
  }

  /** q has been filled, or does not have the target colour, or still waits on the stack. */
  ghost predicate Covered(s: seq<Byte>, w: nat, h: nat, target: Rgba, filled: set<Point>, stack: seq<Point>, q: Point)
    requires |s| == 4 * w * h && InCanvas(w, h, q)
  {
    q in filled || ColorAt(s, w, h, q) != target || q in stack
  }

  /** Every in-canvas edge-neighbour of p is covered. */
  ghost predicate NeighboursCovered(s: seq<Byte>, w: nat, h: nat, target: Rgba, filled: set<Point>, stack: seq<Point>, p: Point)
    requires |s| == 4 * w * h && InCanvas(w, h, p)
  {
    && (p.x > 0 ==> Covered(s, w, h, target, filled, stack, Point(p.x - 1, p.y)))
    && (p.x < w - 1 ==> Covered(s, w, h, target, filled, stack, Point(p.x + 1, p.y)))
    && (p.y > 0 ==> Covered(s, w, h, target, filled, stack, Point(p.x, p.y - 1)))
    && (p.y < h - 1 ==> Covered(s, w, h, target, filled, stack, Point(p.x, p.y + 1)))
  }

  /** A set that holds the start pixel and is closed under stepping to an
      adjacent pixel of the start colour contains the whole region. */
  lemma {:induction false} ClosedSetContainsRegion(s: seq<Byte>, w: nat, h: nat, start: Point, filled: set<Point>, p: Point)
    requires |s| == 4 * w * h && InCanvas(w, h, start) && start in filled
    requires forall q :: q in filled ==> InCanvas(w, h, q)
    requires forall q {:trigger NeighboursCovered(s, w, h, ColorAt(s, w, h, start), filled, [], q)} :: q in filled ==> NeighboursCovered(s, w, h, ColorAt(s, w, h, start), filled, [], q)
    requires Reachable(s, w, h, start, p)
    ensures p in filled
  {
    var target := ColorAt(s, w, h, start);
    var path :| IsPath(s, w, h, target, path) && path[0] == start && path[|path| - 1] == p;
    var k := 0;
    while k < |path| - 1
      invariant 0 <= k < |path| && path[k] in filled
    {
      var a, b := path[k], path[k + 1];
      assert Adjacent(a, b) && InCanvas(w, h, b) && ColorAt(s, w, h, b) == target;
      assert NeighboursCovered(s, w, h, target, filled, [], a);
      k := k + 1;
    }
  }

  /** The colour of pixel p, read from its four bytes (`data.slice(i, i + 4)`). */
  method ReadPixel(data: array<Byte>, w: nat, h: nat, p: Point) returns (c: Rgba)
    requires data.Length == 4 * w * h && InCanvas(w, h, p)
    ensures c == ColorAt(data[..], w, h, p)
  {
    var i := Offset(w, h, p);
    c := Rgba(data[i], data[i + 1], data[i + 2], data[i + 3]);
  }

  /** A non-empty stack is its prefix followed by its top. */
  lemma PopLast<T>(s: seq<T>)
    requires |s| > 0
    ensures s == s[..|s| - 1] + [s[|s| - 1]] && s[|s| - 1] in s
  {
  }

  /** Filling one more pixel of the canvas strictly shrinks the unfilled part. */
  lemma CanvasShrinks(w: nat, h: nat, filled: set<Point>, p: Point)
    requires InCanvas(w, h, p) && p !in filled
    ensures |Canvas(w, h) - (filled + {p})| < |Canvas(w, h) - filled|
  {
    assert p in Canvas(w, h) by { assert p == Point(p.x, p.y); }
    assert Canvas(w, h) - (filled + {p}) == (Canvas(w, h) - filled) - {p};
  }

  /** Writes colour c into the four bytes of the pixel at offset i. */
  method Paint(data: array<Byte>, i: nat, c: Rgba)
    requires i + 4 <= data.Length
    modifies data
    ensures data[i] == c.r && data[i + 1] == c.g && data[i + 2] == c.b && data[i + 3] == c.a
    ensures forall j :: 0 <= j < data.Length && !(i <= j < i + 4) ==> data[j] == old(data[j])
  {
    data[i] := c.r;
    data[i + 1] := c.g;
    data[i + 2] := c.b;
    data[i + 3] := c.a;
  }

  /** Painting pixel e changes the colour of e and of no other pixel. */
  lemma PaintEffect(s: seq<Byte>, s': seq<Byte>, w: nat, h: nat, e: Point, c: Rgba)
    requires |s| == |s'| == 4 * w * h && InCanvas(w, h, e)
    requires var i := Offset(w, h, e);
      && s'[i] == c.r && s'[i + 1] == c.g && s'[i + 2] == c.b && s'[i + 3] == c.a
      && forall j :: 0 <= j < |s| && !(i <= j < i + 4) ==> s'[j] == s[j]
    ensures forall p :: InCanvas(w, h, p) ==> ColorAt(s', w, h, p) == if p == e then c else ColorAt(s, w, h, p)
  {
    forall p | InCanvas(w, h, p) && p != e
      ensures ColorAt(s', w, h, p) == ColorAt(s, w, h, p)
    {
      OffsetInjective(w, h, p, e);
    }
  }

  /** A pixel of the start colour next to the region is in the region. */
  lemma RegionGrows(s: seq<Byte>, w: nat, h: nat, start: Point, p: Point)
    requires |s| == 4 * w * h && InCanvas(w, h, start) && InCanvas(w, h, p)
    requires NextToRegion(s, w, h, start, p) && ColorAt(s, w, h, p) == ColorAt(s, w, h, start)
    ensures Reachable(s, w, h, start, p)
  {
    if p.x > 0 && Reachable(s, w, h, start, Point(p.x - 1, p.y)) {
      ReachableStep(s, w, h, start, Point(p.x - 1, p.y), p);
    } else if p.x < w - 1 && Reachable(s, w, h, start, Point(p.x + 1, p.y)) {
      ReachableStep(s, w, h, start, Point(p.x + 1, p.y), p);
    } else if p.y > 0 && Reachable(s, w, h, start, Point(p.x, p.y - 1)) {
      ReachableStep(s, w, h, start, Point(p.x, p.y - 1), p);
    } else {
      ReachableStep(s, w, h, start, Point(p.x, p.y + 1), p);
    }
  }

  /** The in-canvas edge-neighbours of p, in the order the fill pushes them. */
  function Neighbours(w: nat, h: nat, p: Point): (r: seq<Point>)
    requires InCanvas(w, h, p)
    ensures forall q {:trigger q in r} :: q in r <==> InCanvas(w, h, q) && Adjacent(p, q)
  {
    (if p.x > 0 then [Point(p.x - 1, p.y)] else []) +
    (if p.x < w - 1 then [Point(p.x + 1, p.y)] else []) +
    (if p.y > 0 then [Point(p.x, p.y - 1)] else []) +
    (if p.y < h - 1 then [Point(p.x, p.y + 1)] else [])
  }

  /** `cur` is the original buffer `s0` with exactly the pixels of `filled` recoloured. */
  ghost predicate PaintedExactly(s0: seq<Byte>, cur: seq<Byte>, w: nat, h: nat, fill: Rgba, filled: set<Point>)
    requires |s0| == |cur| == 4 * w * h
  {
    forall p {:trigger ColorAt(cur, w, h, p)} :: InCanvas(w, h, p) ==> ColorAt(cur, w, h, p) == if p in filled then fill else ColorAt(s0, w, h, p)
  }

  /** Every filled pixel had the target colour and lies in the region. */
  ghost predicate FilledInRegion(s0: seq<Byte>, w: nat, h: nat, start: Point, filled: set<Point>)
    requires |s0| == 4 * w * h && InCanvas(w, h, start)
  {
    forall p {:trigger p in filled} :: p in filled ==>
      InCanvas(w, h, p) && ColorAt(s0, w, h, p) == ColorAt(s0, w, h, start) && Reachable(s0, w, h, start, p)
  }

  /** Every pixel on the stack is in the canvas, and is the start or next to the region. */
  ghost predicate StackNearRegion(s0: seq<Byte>, w: nat, h: nat, start: Point, stack: seq<Point>)
    requires |s0| == 4 * w * h
  {
    forall e {:trigger e in stack} :: e in stack ==> InCanvas(w, h, e) && (e == start || NextToRegion(s0, w, h, start, e))
  }

  /** The frontier of the filled set is covered. */
  ghost predicate FrontierCovered(s0: seq<Byte>, w: nat, h: nat, target: Rgba, filled: set<Point>, stack: seq<Point>)
    requires |s0| == 4 * w * h
    requires forall p :: p in filled ==> InCanvas(w, h, p)
  {
    forall p {:trigger NeighboursCovered(s0, w, h, target, filled, stack, p)} :: p in filled ==> NeighboursCovered(s0, w, h, target, filled, stack, p)
  }

  /** The four conditional pushes of the fill append exactly Neighbours(w, h, p). */
  lemma PushOrder(stack: seq<Point>, w: nat, h: nat, p: Point)
    requires InCanvas(w, h, p)
    ensures var s1 := if p.x > 0 then stack + [Point(p.x - 1, p.y)] else stack;
            var s2 := if p.x < w - 1 then s1 + [Point(p.x + 1, p.y)] else s1;
            var s3 := if p.y > 0 then s2 + [Point(p.x, p.y - 1)] else s2;
            var s4 := if p.y < h - 1 then s3 + [Point(p.x, p.y + 1)] else s3;
            s4 == stack + Neighbours(w, h, p)
  {
  }

  /** Pushes the in-canvas edge neighbours of `p` (left, right, up, down) onto the stack. */
  method PushNeighbours(stack: seq<Point>, w: nat, h: nat, p: Point) returns (r: seq<Point>)
    requires InCanvas(w, h, p)
    ensures r == stack + Neighbours(w, h, p)
  {
    r := stack;
    if p.x > 0 { r := r + [Point(p.x - 1, p.y)]; }
    if p.x < w - 1 { r := r + [Point(p.x + 1, p.y)]; }
    if p.y > 0 { r := r + [Point(p.x, p.y - 1)]; }
    if p.y < h - 1 { r := r + [Point(p.x, p.y + 1)]; }
    PushOrder(stack, w, h, p);
  }

  /** The loop invariant of the fill: `cur` is the original buffer `s0` with
      exactly the pixels of `filled` recoloured; every filled pixel had the
      target colour and lies in the region; every pixel on the stack is in the
      canvas and is the start or next to the region; the start pixel is filled
      or waiting; and every in-canvas neighbour of a filled pixel is filled, of
      another colour, or on the stack. */
  ghost predicate FillState(s0: seq<Byte>, cur: seq<Byte>, w: nat, h: nat, start: Point, fill: Rgba, filled: set<Point>, stack: seq<Point>)
    requires |s0| == |cur| == 4 * w * h && InCanvas(w, h, start)
  {
    && PaintedExactly(s0, cur, w, h, fill, filled)
    && FilledInRegion(s0, w, h, start, filled)
    && StackNearRegion(s0, w, h, start, stack)
    && (start in filled || start in stack)
    && FrontierCovered(s0, w, h, ColorAt(s0, w, h, start), filled, stack)
  }

  /** Popping a pixel that no longer has the target colour keeps the invariant. */
  lemma SkipKeepsFillState(s0: seq<Byte>, cur: seq<Byte>, w: nat, h: nat, start: Point, fill: Rgba,
                           filled: set<Point>, stack: seq<Point>, p: Point)
    requires |s0| == |cur| == 4 * w * h && InCanvas(w, h, start)
    requires fill != ColorAt(s0, w, h, start)
    requires FillState(s0, cur, w, h, start, fill, filled, stack + [p])
    requires InCanvas(w, h, p) && ColorAt(cur, w, h, p) != ColorAt(s0, w, h, start)
    ensures FillState(s0, cur, w, h, start, fill, filled, stack)
  {
    var target := ColorAt(s0, w, h, start);
    assert forall e :: e in stack + [p] <==> e in stack || e == p;
    assert p in filled || ColorAt(s0, w, h, p) != target;
    forall q | q in filled
      ensures NeighboursCovered(s0, w, h, target, filled, stack, q)
    {
      assert NeighboursCovered(s0, w, h, target, filled, stack + [p], q);
    }
  }

  /** Popping a pixel of the target colour, painting it and pushing its
      neighbours keeps the invariant, with the pixel added to `filled`. */
  lemma PaintKeepsFillState(s0: seq<Byte>, cur: seq<Byte>, cur': seq<Byte>, w: nat, h: nat, start: Point, fill: Rgba,
                            filled: set<Point>, stack: seq<Point>, p: Point)
    requires |s0| == |cur| == |cur'| == 4 * w * h && InCanvas(w, h, start)
    requires fill != ColorAt(s0, w, h, start)
    requires FillState(s0, cur, w, h, start, fill, filled, stack + [p])
    requires InCanvas(w, h, p) && ColorAt(cur, w, h, p) == ColorAt(s0, w, h, start)
    requires forall q :: InCanvas(w, h, q) ==> ColorAt(cur', w, h, q) == if q == p then fill else ColorAt(cur, w, h, q)
    ensures p !in filled
    ensures FillState(s0, cur', w, h, start, fill, filled + {p}, stack + Neighbours(w, h, p))
  {
    var target := ColorAt(s0, w, h, start);
    var filled', stack' := filled + {p}, stack + Neighbours(w, h, p);
    assert p !in filled && ColorAt(s0, w, h, p) == target;
    assert PaintedExactly(s0, cur', w, h, fill, filled');
    PaintedPixelInRegion(s0, w, h, start, filled, stack, p);
    PushedNearRegion(s0, w, h, start, stack, p);
    assert start in filled' || start in stack' by {
      assert forall e :: e in stack + [p] ==> e == p || e in stack';
    }
    PaintedFrontierCovered(s0, w, h, target, filled, stack, p);
  }

  lemma PaintedPixelInRegion(s0: seq<Byte>, w: nat, h: nat, start: Point, filled: set<Point>, stack: seq<Point>, p: Point)
    requires |s0| == 4 * w * h && InCanvas(w, h, start) && InCanvas(w, h, p)
    requires FilledInRegion(s0, w, h, start, filled) && StackNearRegion(s0, w, h, start, stack + [p])
    requires ColorAt(s0, w, h, p) == ColorAt(s0, w, h, start)
    ensures FilledInRegion(s0, w, h, start, filled + {p})
  {
    assert p in stack + [p];
    if p == start {
      ReachableStart(s0, w, h, start);
    } else {
      RegionGrows(s0, w, h, start, p);
    }
  }

  lemma PushedNearRegion(s0: seq<Byte>, w: nat, h: nat, start: Point, stack: seq<Point>, p: Point)
    requires |s0| == 4 * w * h && InCanvas(w, h, p)
    requires StackNearRegion(s0, w, h, start, stack + [p]) && Reachable(s0, w, h, start, p)
    ensures StackNearRegion(s0, w, h, start, stack + Neighbours(w, h, p))
  {
    assert forall e :: e in stack ==> e in stack + [p];
    assert forall e :: e in stack + Neighbours(w, h, p) <==> e in stack || e in Neighbours(w, h, p);
  }

  lemma PaintedFrontierCovered(s0: seq<Byte>, w: nat, h: nat, target: Rgba, filled: set<Point>, stack: seq<Point>, p: Point)
    requires |s0| == 4 * w * h && InCanvas(w, h, p)
    requires forall q :: q in filled ==> InCanvas(w, h, q)
    requires FrontierCovered(s0, w, h, target, filled, stack + [p])
    ensures FrontierCovered(s0, w, h, target, filled + {p}, stack + Neighbours(w, h, p))
  {
    var filled', stack' := filled + {p}, stack + Neighbours(w, h, p);
    forall q | q in filled'
      ensures NeighboursCovered(s0, w, h, target, filled', stack', q)
    {
      if q == p {
        NeighboursPushed(s0, w, h, target, filled', stack, p);
      } else {
        assert NeighboursCovered(s0, w, h, target, filled, stack + [p], q);
        CoverGrows(s0, w, h, target, filled, stack, p, q);
      }
    }
  }

  /** Once p is painted and its neighbours pushed, p's neighbours are covered. */
  lemma NeighboursPushed(s0: seq<Byte>, w: nat, h: nat, target: Rgba, filled: set<Point>, stack: seq<Point>, p: Point)
    requires |s0| == 4 * w * h && InCanvas(w, h, p)
    ensures NeighboursCovered(s0, w, h, target, filled, stack + Neighbours(w, h, p), p)
  {
    var ns := Neighbours(w, h, p);
    assert forall e :: e in ns ==> e in stack + ns;
    if p.x > 0 { assert Point(p.x - 1, p.y) in ns; }
    if p.x < w - 1 { assert Point(p.x + 1, p.y) in ns; }
    if p.y > 0 { assert Point(p.x, p.y - 1) in ns; }
    if p.y < h - 1 { assert Point(p.x, p.y + 1) in ns; }
  }

  /** Covering survives popping p, painting it and pushing more pixels. */
  lemma CoverGrows(s0: seq<Byte>, w: nat, h: nat, target: Rgba, filled: set<Point>, stack: seq<Point>, p: Point, q: Point)
    requires |s0| == 4 * w * h && InCanvas(w, h, p) && InCanvas(w, h, q)
    requires NeighboursCovered(s0, w, h, target, filled, stack + [p], q)
    ensures NeighboursCovered(s0, w, h, target, filled + {p}, stack + Neighbours(w, h, p), q)
  {
    var stack' := stack + Neighbours(w, h, p);
    assert forall e :: e in stack + [p] ==> e == p || e in stack';
  }

  /** When the stack is empty the filled set is the whole region. */
  lemma FilledIsRegion(s0: seq<Byte>, cur: seq<Byte>, w: nat, h: nat, start: Point, fill: Rgba, filled: set<Point>)
    requires |s0| == |cur| == 4 * w * h && InCanvas(w, h, start)
    requires FillState(s0, cur, w, h, start, fill, filled, [])
    ensures forall p :: InCanvas(w, h, p) ==>
      ColorAt(cur, w, h, p) == if Reachable(s0, w, h, start, p) then fill else ColorAt(s0, w, h, p)
  {
    forall p | InCanvas(w, h, p) && Reachable(s0, w, h, start, p)
      ensures p in filled
    {
      ClosedSetContainsRegion(s0, w, h, start, filled, p);
    }
  }

  /** The bucket tool: recolours, in place, the 4-connected region of pixels
      that share the colour of (startX, startY), using an explicit stack.
      `data` is the canvas ImageData buffer, four bytes per pixel, row by row. */
  method FloodFill(data: array<Byte>, w: nat, h: nat, startX: int, startY: int, fillColor: seq<Byte>)
    requires data.Length == 4 * w * h
    requires InCanvas(w, h, Point(startX, startY))
    requires |fillColor| == 4
    modifies data
    ensures ColorAt(old(data[..]), w, h, Point(startX, startY)) == ToRgba(fillColor) ==> data[..] == old(data[..])
    ensures forall p :: InCanvas(w, h, p) ==>
      ColorAt(data[..], w, h, p) ==
        if Reachable(old(data[..]), w, h, Point(startX, startY), p) then ToRgba(fillColor)
        else ColorAt(old(data[..]), w, h, p)
  {
    var start := Point(startX, startY);
    var stack := [start];
    var targetColor := ReadPixel(data, w, h, start);
    var newColor := ToRgba(fillColor);
    ghost var s0 := data[..];
    if targetColor == newColor {
      forall p | InCanvas(w, h, p) && Reachable(s0, w, h, start, p)
        ensures ColorAt(s0, w, h, p) == newColor
      {
        ReachableHasTargetColor(s0, w, h, start, p);
      }
      return;
    }
    ghost var filled: set<Point> := {};
    while |stack| > 0
      invariant FillState(s0, data[..], w, h, start, newColor, filled, stack)
      decreases |Canvas(w, h) - filled|, |stack|
    {
      PopLast(stack);
      var p := stack[|stack| - 1];
      stack := stack[..|stack| - 1];
      var current := ReadPixel(data, w, h, p);
      if current != targetColor {
        SkipKeepsFillState(s0, data[..], w, h, start, newColor, filled, stack, p);
        continue;
      }
      ghost var before := data[..];
      ghost var stack0 := stack;
      Paint(data, Offset(w, h, p), newColor);
      PaintEffect(before, data[..], w, h, p, newColor);
      stack := PushNeighbours(stack, w, h, p);
      PaintKeepsFillState(s0, before, data[..], w, h, start, newColor, filled, stack0, p);
      CanvasShrinks(w, h, filled, p);
      filled := filled + {p};
    }
    FilledIsRegion(s0, data[..], w, h, start, newColor, filled);
  }

  // ---------------------------------------------------------------------
  // Colour picker decoding

  /** The value of a hexadecimal digit of either case, or -1 for any other character. */
  function HexDigitValue(c: char): (d: int)
    ensures -1 <= d < 16
    ensures d >= 0 <==> '0' <= c <= '9' || 'a' <= c <= 'f' || 'A' <= c <= 'F'
  {
    if '0' <= c <= '9' then c as int - '0' as int
    else if 'a' <= c <= 'f' then c as int - 'a' as int + 10
    else if 'A' <= c <= 'F' then c as int - 'A' as int + 10
    else -1
  }

  predicate AllHexDigits(s: string)
  {
    forall k :: 0 <= k < |s| ==> HexDigitValue(s[k]) >= 0
  }

  /** The number of leading hexadecimal digits of v. */
  function HexPrefixLength(v: string): (n: nat)
    ensures n <= |v| && AllHexDigits(v[..n])
    ensures n < |v| ==> HexDigitValue(v[n]) < 0
  {
    if v == [] || HexDigitValue(v[0]) < 0 then 0
    else
      var n := 1 + HexPrefixLength(v[1..]);
      assert v[..n] == [v[0]] + v[1..][..n - 1];
      n
  }

  /** The number a string of hexadecimal digits spells, most significant first. */
  function HexValue(digits: string): nat
    requires AllHexDigits(digits)
  {
    if digits == [] then 0
    else HexValue(digits[..|digits| - 1]) * 16 + HexDigitValue(digits[|digits| - 1])
  }

  /** `parseInt(v, 16)` for a string without leading blanks, sign or `0x`:
      the value of its longest hexadecimal prefix, or None (NaN) when it does
      not start with a hexadecimal digit. */
  function ParseHex(v: string): (r: Option<nat>)
    ensures r.None? <==> v == [] || HexDigitValue(v[0]) < 0
  {
    var n := HexPrefixLength(v);
    if n == 0 then None else Some(HexValue(v[..n]))
  }

  /** `s.replace('#', '')` with a string pattern: only the first '#' goes. */
  function RemoveFirstHash(s: string): (r: string)
    ensures '#' !in s ==> r == s
  {
    if s == [] then []
    else if s[0] == '#' then s[1..]
    else [s[0]] + RemoveFirstHash(s[1..])
  }

  /** What the replacement removes is exactly the first '#', at position i. */
  lemma {:induction false} RemoveFirstHashAt(s: string, i: nat)
    requires i < |s| && s[i] == '#' && '#' !in s[..i]
    ensures RemoveFirstHash(s) == s[..i] + s[i + 1..]
  {
    if i == 0 {
      assert s[..0] + s[1..] == s[1..];
    } else {
      var t := s[1..];
      assert t[..i - 1] == s[1..i];
      var u, v := t[..i - 1], s[..i];
      forall k | 0 <= k < |u|
        ensures u[k] != '#'
      {
        assert u[k] == v[k + 1];
      }
      RemoveFirstHashAt(t, i - 1);
      assert t[i..] == s[i + 1..];
      assert s[..i] == [s[0]] + s[1..i];
      assert s[0] == s[..i][0] != '#';
    }
  }

  const Two32: int := 0x1_0000_0000
  const Two31: int := 0x8000_0000

  /** ToInt32, the conversion JavaScript's bitwise operators apply: the value
      modulo 2^32 read as a signed 32-bit integer; NaN becomes 0. */
  function ToInt32(n: Option<nat>): (r: int)
    ensures -Two31 <= r < Two31
    ensures r % Two32 == Bits32(n)
  {
    match n
    case None => 0
    case Some(v) =>
      var u := v % Two32;
      if u >= Two31 then u - Two32 else u
  }

  /** The unsigned 32-bit pattern that the bitwise operators work on. */
  function Bits32(n: Option<nat>): (u: nat)
    ensures u < Two32
  {
    match n
    case None => 0
    case Some(v) => v % Two32
  }

  function Pow2(k: nat): (p: nat)
    ensures p >= 1
  {
    if k == 0 then 1 else 2 * Pow2(k - 1)
  }

  lemma Pow2Values()
    ensures Pow2(8) == 0x100 && Pow2(16) == 0x1_0000
  {
    assert Pow2(2) == 4;
    assert Pow2(4) == 16;
    assert Pow2(6) == 64;
    assert Pow2(8) == 0x100;
    assert Pow2(10) == 0x400;
    assert Pow2(12) == 0x1000;
    assert Pow2(14) == 0x4000;
  }

  /** `x >> k` on a signed 32-bit value: the arithmetic shift, which rounds
      toward minus infinity (Dafny's `/` by a positive divisor does the same):
      the largest r with r * 2^k at most x. */
  function ShiftRight(x: int, k: nat): (r: int)
    ensures Pow2(k) * r <= x < Pow2(k) * r + Pow2(k)
  {
    x / Pow2(k)
  }

  /** `x & 255` on a signed 32-bit value: its lowest eight bits, the one
      byte that differs from x by a multiple of 256, even for negative x. */
  function LowByte(x: int): (r: Byte)
    ensures (x - r) % 256 == 0
  {
    x % 256
  }

  /** `hexToRgba`: strips the '#', parses the rest as hexadecimal and splits
      the number into red (bits 16 to 23), green (bits 8 to 15) and blue
      (bits 0 to 7), with an opaque alpha. */
  function HexToRgba(hex: string): (rgba: seq<Byte>)
    ensures |rgba| == 4 && rgba[3] == 255
    ensures var u := Bits32(ParseHex(RemoveFirstHash(hex)));
      && rgba[0] == (u / 0x1_0000) % 256
      && rgba[1] == (u / 0x100) % 256
      && rgba[2] == u % 256
      && rgba[0] as int * 0x1_0000 + rgba[1] as int * 0x100 + rgba[2] as int == u % 0x100_0000
  {
    var num := ParseHex(RemoveFirstHash(hex));
    var x := ToInt32(num);
    Pow2Values();
    SignedShift(x, Bits32(num));
    ByteDigits(Bits32(num));
    [LowByte(ShiftRight(x, 16)), LowByte(ShiftRight(x, 8)), LowByte(x), 255]
  }

  /** Shifting the signed reading of a 32-bit pattern right and keeping the
      low eight bits reads the same bits as the unsigned pattern. */
  lemma SignedShift(x: int, u: nat)
    requires u < Two32 && -Two31 <= x < Two31 && x % Two32 == u
    ensures (x / 0x1_0000) % 256 == (u / 0x1_0000) % 256
    ensures (x / 0x100) % 256 == (u / 0x100) % 256
    ensures x % 256 == u % 256
  {
    if x < 0 {
      assert x == u - Two32;
      DropWholeBytes(u, 0x100, 0x100_0000);
      DropWholeBytes(u, 0x1_0000, 0x1_0000);
      DropWholeBytes(u, 1, Two32);
    }
  }

  /** Subtracting k whole multiples of d shifts the quotient by k, and
      leaves its low byte alone when k is a multiple of 256. */
  lemma DropWholeBytes(u: nat, d: int, k: int)
    requires d >= 1 && k % 256 == 0
    ensures (u - k * d) / d == u / d - k
    ensures ((u - k * d) / d) % 256 == (u / d) % 256
  {
    var q, r := u / d, u % d;
    assert u - k * d == d * (q - k) + r;
    DivUnique(u - k * d, d, q - k, r);
    assert q - k == q + 256 * (-(k / 256));
  }

  lemma DivUnique(a: int, d: int, q: int, r: int)
    requires d >= 1 && 0 <= r < d && a == d * q + r
    ensures a / d == q
  {
    var q0, r0 := a / d, a % d;
    assert d * (q0 - q) == r - r0;
    if q0 > q {
      MulAtLeast(d, q0 - q);
    } else if q0 < q {
      MulAtLeast(d, q - q0);
    }
  }

  lemma MulAtLeast(d: int, k: int)
    requires d >= 1 && k >= 1
    ensures d * k >= d
  {
  }

  /** The three low bytes of u are its base-256 digits. */
  lemma ByteDigits(u: nat)
    ensures (u / 0x1_0000) % 256 * 0x1_0000 + (u / 0x100) % 256 * 0x100 + u % 256 == u % 0x100_0000
  {
    var q0, b0 := u / 256, u % 256;
    var q1, b1 := q0 / 256, q0 % 256;
    var q2, b2 := q1 / 256, q1 % 256;
    assert u == 0x100_0000 * q2 + (0x1_0000 * b2 + 0x100 * b1 + b0);
    assert u == 0x1_0000 * q1 + (0x100 * b1 + b0);
    assert u / 0x1_0000 == q1;
    assert u % 0x100_0000 == 0x1_0000 * b2 + 0x100 * b1 + b0;
  }

  /** The lowercase hexadecimal digit for 0 <= d < 16. */
  function HexChar(d: int): (c: char)
    requires 0 <= d < 16
    ensures HexDigitValue(c) == d && c != '#'
  {
    if d < 10 then ('0' as int + d) as char else ('a' as int + d - 10) as char
  }

  /** Two hexadecimal digits for one colour channel. */
  function HexByte(b: Byte): (s: string)
    ensures |s| == 2 && AllHexDigits(s) && '#' !in s
  {
    [HexChar(b / 16), HexChar(b % 16)]
  }

  /** The value an HTML colour input reports for a colour: `#rrggbb`. */
  function ColorInputValue(r: Byte, g: Byte, b: Byte): string
  {
    "#" + HexByte(r) + HexByte(g) + HexByte(b)
  }

  lemma {:induction false} HexValueAppendByte(a: string, b: Byte)
    requires AllHexDigits(a)
    ensures AllHexDigits(a + HexByte(b)) && HexValue(a + HexByte(b)) == HexValue(a) * 256 + b
  {
    var s := a + HexByte(b);
    assert s[..|s| - 1] == a + [HexChar(b / 16)];
    assert (a + [HexChar(b / 16)])[..|a|] == a;
  }

  lemma {:induction false} AllHexPrefixIsWhole(s: string)
    requires AllHexDigits(s)
    ensures HexPrefixLength(s) == |s|
  {
    if s != [] {
      AllHexPrefixIsWhole(s[1..]);
    }
  }

  lemma Channels(r: Byte, g: Byte, b: Byte, u: nat)
    requires u == r as int * 0x1_0000 + g as int * 0x100 + b as int
    ensures u < Two32 && u / 0x1_0000 % 256 == r && u / 0x100 % 256 == g && u % 256 == b
  {
    assert u / 0x1_0000 == r;
    assert u / 0x100 == r as int * 0x100 + g as int;
  }

  /** Decoding the colour input's value gives back the colour it shows,
      fully opaque. */
  lemma ColorInputRoundTrip(r: Byte, g: Byte, b: Byte)
    ensures HexToRgba(ColorInputValue(r, g, b)) == [r, g, b, 255]
  {
    var u := r as int * 0x1_0000 + g as int * 0x100 + b as int;
    ParsedColour(r, g, b);
    Channels(r, g, b, u);
    assert Bits32(Some(u)) == u;
  }

  /** The colour input's value parses to the colour's 24-bit number. */
  lemma ParsedColour(r: Byte, g: Byte, b: Byte)
    ensures ParseHex(RemoveFirstHash(ColorInputValue(r, g, b)))
      == Some(r as int * 0x1_0000 + g as int * 0x100 + b as int)
  {
    var digits := HexByte(r) + HexByte(g) + HexByte(b);
    var v := ColorInputValue(r, g, b);
    assert v == "#" + digits;
    assert v[0] == '#' && v[1..] == digits;
    assert RemoveFirstHash(v) == digits;
    ColourDigits(r, g, b);
    assert ParseHex(digits) == Some(HexValue(digits)) by {
      AllHexPrefixIsWhole(digits);
      assert digits[..|digits|] == digits;
    }
  }

  /** The six digits read back as the colour's 24-bit number. */
  lemma ColourDigits(r: Byte, g: Byte, b: Byte)
    ensures AllHexDigits(HexByte(r) + HexByte(g) + HexByte(b))
    ensures HexValue(HexByte(r) + HexByte(g) + HexByte(b)) == r as int * 0x1_0000 + g as int * 0x100 + b as int
  {
    HexValueAppendByte([], r);
    assert [] + HexByte(r) == HexByte(r);
    HexValueAppendByte(HexByte(r), g);
    HexValueAppendByte(HexByte(r) + HexByte(g), b);
  }

  // ---------------------------------------------------------------------
  // Brush snapping

  /** The pencil's snapping of a canvas coordinate to the brush grid:
      `Math.floor(x / brushSize) * brushSize`. */
  function Snap(x: real, brushSize: int): (s: real)
    requires brushSize >= 1
    ensures s <= x < s + brushSize as real
    ensures exists k: int :: s == (k * brushSize) as real
  {
    var k := (x / brushSize as real).Floor;
    SnapBounds(x, brushSize, k);
    (k * brushSize) as real
  }

  lemma SnapBounds(x: real, b: int, k: int)
    requires b >= 1 && k == (x / b as real).Floor
    ensures (k * b) as real <= x < (k * b) as real + b as real
  {
    var q := x / b as real;
    var br := b as real;
    assert k as real <= q < k as real + 1.0;
    assert q * br == x;
    IntMulReal(k, b);
    RealMulLe(k as real, q, br);
    var k1 := k as real + 1.0;
    RealMulLt(q, k1, br);
    assert x < k1 * br;
    assert k1 * br == k as real * br + br;
  }

  lemma IntMulReal(k: int, b: int)
    ensures (k * b) as real == k as real * b as real
  {
  }

  lemma RealMulLe(a: real, c: real, b: real)
    requires a <= c && b > 0.0
    ensures a * b <= c * b
  {
  }

  lemma RealMulLt(a: real, c: real, b: real)
    requires a < c && b > 0.0
    ensures a * b < c * b
  {
  }

  /** The snapped coordinate is the only multiple of the brush size in
      (x - brushSize, x]. */
  lemma SnapUnique(x: real, brushSize: int, k: int)
    requires brushSize >= 1
    requires (k * brushSize) as real <= x < (k * brushSize) as real + brushSize as real
    ensures Snap(x, brushSize) == (k * brushSize) as real
  {
    var s := Snap(x, brushSize);
    var j: int :| s == (j * brushSize) as real;
    assert j * brushSize < k * brushSize + brushSize;
    assert k * brushSize < j * brushSize + brushSize;
    MulAtLeastOne(j - k, brushSize);
    MulAtLeastOne(k - j, brushSize);
    assert (j - k) * brushSize == j * brushSize - k * brushSize;
    assert (k - j) * brushSize == k * brushSize - j * brushSize;
  }

  lemma MulAtLeastOne(d: int, b: int)
    requires b >= 1
    ensures d >= 1 ==> d * b >= b
  {
    if d >= 1 {
      MulMono(1, d, b);
    }
  }

  /** Snapping a snapped coordinate leaves it where it is. */
  lemma SnapIdempotent(x: real, brushSize: int)
    requires brushSize >= 1
    ensures Snap(Snap(x, brushSize), brushSize) == Snap(x, brushSize)
  {
    var s := Snap(x, brushSize);
    var k: int :| s == (k * brushSize) as real;
    IntMulReal(k, brushSize);
    assert s / brushSize as real == k as real;
    assert (s / brushSize as real).Floor == k;
  }
}
