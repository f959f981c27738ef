/** The ray tracer's two loops: `cast_ray`, which keeps the colour of the closest object
    a ray hits, and `render`, which casts one ray per pixel and writes the result into a
    framebuffer in row-major order. The sphere geometry and the perspective projection
    are not modelled: each object's hit distance comes from an intersection oracle and
    each pixel's ray direction from a direction oracle, both given as parameters. */
module Tracer {
  import opened Options
  import opened Colors
  import opened Framebuffers

  /** raylib's `Vector3`; only passed through to the oracles, never computed with. */
  datatype Vector3 = Vector3(x: real, y: real, z: real)

  /** An object of the scene as `cast_ray` sees it: a sphere with a flat colour. */
  datatype Sphere = Sphere(center: Vector3, radius: real, color: Color)

  /** The `RayIntersect` contract: the distance along the ray (origin, direction) at
      which the object is hit, or `None` when the ray misses it. */
  type Intersector = (Sphere, Vector3, Vector3) -> Option<real>

  /** `f32::MAX` = (2 - 2^-23) * 2^127, the starting value of `closest_t`. */
  const F32_MAX: real := 340282346638528859811704183484516925440.0

  /** The colour `cast_ray` returns when it keeps no hit. */
  const BACKGROUND: Color := Color(4, 12, 36, 255)

  /** Every ray of `render` starts at the origin. */
  const ORIGIN: Vector3 := Vector3(0.0, 0.0, 0.0)

  /** What the oracle reports for each object, in scene order. */
  function Distances(objects: seq<Sphere>, origin: Vector3, direction: Vector3, intersect: Intersector): seq<Option<real>> {
    seq(|objects|, i requires 0 <= i < |objects| => intersect(objects[i], origin, direction))
  }

  /** A reported hit that can beat the `f32::MAX` sentinel. */
  predicate IsHit(d: Option<real>) {
    d.Some? && d.value < F32_MAX
  }

  predicate NoHit(ds: seq<Option<real>>) {
    forall j :: 0 <= j < |ds| ==> !IsHit(ds[j])
  }

  /** Object `i` is hit, no other hit is closer, and every earlier hit is farther away:
      the closest hit, ties going to the first object in the scene. */
  predicate IsFirstClosest(ds: seq<Option<real>>, i: int) {
    0 <= i < |ds| && IsHit(ds[i]) &&
    (forall j :: 0 <= j < |ds| && IsHit(ds[j]) ==> ds[i].value <= ds[j].value) &&
    (forall j :: 0 <= j < i && IsHit(ds[j]) ==> ds[i].value < ds[j].value)
  }

  /** The object whose colour `cast_ray` keeps, if any. */
  function Winner(ds: seq<Option<real>>): (w: Option<nat>)
    ensures w.None? <==> NoHit(ds)
    ensures w.Some? ==> IsFirstClosest(ds, w.value)
  {
    if ds == [] then None
    else
      var last := |ds| - 1;
      var w := Winner(ds[..last]);
      assert forall j :: 0 <= j < last ==> ds[..last][j] == ds[j];
      if IsHit(ds[last]) && (w.None? || ds[last].value < ds[w.value].value) then Some(last)
      else w
  }

  /** There is only one first closest hit. */
  lemma FirstClosestUnique(ds: seq<Option<real>>, i: int, j: int)
    requires IsFirstClosest(ds, i) && IsFirstClosest(ds, j)
    ensures i == j
  {
  }

  /** The colour `cast_ray` computes for one ray. */
  function TraceColor(objects: seq<Sphere>, origin: Vector3, direction: Vector3, intersect: Intersector): Color {
    match Winner(Distances(objects, origin, direction, intersect))
    case None => BACKGROUND
    case Some(i) => objects[i].color
  }

  /** With no hit below the sentinel the ray shows the background. */
  lemma TraceNoHit(objects: seq<Sphere>, origin: Vector3, direction: Vector3, intersect: Intersector)
    requires forall i :: 0 <= i < |objects| ==> !IsHit(intersect(objects[i], origin, direction))
    ensures TraceColor(objects, origin, direction, intersect) == BACKGROUND
  {
    var ds := Distances(objects, origin, direction, intersect);
    assert NoHit(ds);
  }

  /** The ray shows the colour of the closest object it hits, the first such object
      in the scene on a tie. */
  lemma TraceClosest(objects: seq<Sphere>, origin: Vector3, direction: Vector3, intersect: Intersector, i: int)
    requires IsFirstClosest(Distances(objects, origin, direction, intersect), i)
    ensures TraceColor(objects, origin, direction, intersect) == objects[i].color
  {
    var ds := Distances(objects, origin, direction, intersect);
    var w := Winner(ds);
    assert !NoHit(ds);
    FirstClosestUnique(ds, w.value, i);
  }

  /** Some object is hit, and then a closest one exists. */
  lemma ClosestExists(ds: seq<Option<real>>)
    requires !NoHit(ds)
    ensures exists i :: IsFirstClosest(ds, i)
  {
    assert IsFirstClosest(ds, Winner(ds).value);
  }

  /** A hit that does not beat the sentinel is never selected. */
  lemma SentinelNeverWins(ds: seq<Option<real>>, i: int)
    requires 0 <= i < |ds| && ds[i].Some? && ds[i].value >= F32_MAX
    ensures Winner(ds) != Some(i)
  {
  }

  /** The ray shows either the background or the colour of an object of the scene. */
  lemma TraceFromScene(objects: seq<Sphere>, origin: Vector3, direction: Vector3, intersect: Intersector)
    ensures var c := TraceColor(objects, origin, direction, intersect);
            c == BACKGROUND || exists i :: 0 <= i < |objects| && objects[i].color == c
  {
    var w := Winner(Distances(objects, origin, direction, intersect));
    if w.Some? {
      assert objects[w.value].color == TraceColor(objects, origin, direction, intersect);
    }
  }

  /** `cast_ray`: one pass over the objects keeping the closest distance so far and its
      colour, replacing them only on a strictly closer hit. */
  method CastRay(origin: Vector3, direction: Vector3, objects: seq<Sphere>, intersect: Intersector) returns (hitColor: Color)
    ensures hitColor == TraceColor(objects, origin, direction, intersect)
  {
    ghost var ds := Distances(objects, origin, direction, intersect);
    var closestT := F32_MAX;
    hitColor := BACKGROUND;
    for i := 0 to |objects|
      invariant Winner(ds[..i]).None? ==> closestT == F32_MAX && hitColor == BACKGROUND
      invariant Winner(ds[..i]).Some? ==>
                  var w := Winner(ds[..i]).value;
                  w < i && closestT == ds[w].value && hitColor == objects[w].color
    {
      var t := intersect(objects[i], origin, direction);
      assert ds[..i + 1][..i] == ds[..i];
      if t.Some? {
        if t.value < closestT {
          closestT := t.value;
          hitColor := objects[i].color;
        }
      }
    }
    assert ds[..|objects|] == ds;
  }

  /** The pixels of row `y`, left to right. */
  function Row(width: nat, y: int): seq<(int, int)> {
    seq(width, x => (x, y))
  }

  /** The first `rows` rows of a `width`-wide buffer, top to bottom. */
  function RowMajor(width: nat, rows: nat): seq<(int, int)> {
    if rows == 0 then [] else RowMajor(width, rows - 1) + Row(width, rows - 1)
  }

  /** The k-th pixel of the row-major order is the in-bounds pixel at offset k, so the
      order visits every pixel of the buffer exactly once. */
  lemma {:induction false} RowMajorOrder(width: nat, height: nat)
    ensures |RowMajor(width, height)| == width * height
    ensures forall k :: 0 <= k < width * height ==>
              InBounds(width, height, RowMajor(width, height)[k].0, RowMajor(width, height)[k].1) &&
              Index(width, RowMajor(width, height)[k].0, RowMajor(width, height)[k].1) == k
  {
    if height > 0 {
      RowMajorOrder(width, height - 1);
      var prefix := RowMajor(width, height - 1);
      var r := RowMajor(width, height);
      assert r == prefix + Row(width, height - 1);
      assert (height - 1) * width + width == height * width;
      forall k | 0 <= k < width * height
        ensures InBounds(width, height, r[k].0, r[k].1) && Index(width, r[k].0, r[k].1) == k
      {
        if k < |prefix| {
          assert r[k] == prefix[k];
        } else {
          assert r[k] == (k - |prefix|, height - 1);
        }
      }
    }
  }

  /** Every in-bounds pixel occurs in the row-major order, at its own offset and nowhere else. */
  lemma RowMajorVisitsOnce(width: nat, height: nat, x: int, y: int)
    requires InBounds(width, height, x, y)
    ensures Index(width, x, y) < |RowMajor(width, height)|
    ensures RowMajor(width, height)[Index(width, x, y)] == (x, y)
    ensures forall k :: 0 <= k < |RowMajor(width, height)| && RowMajor(width, height)[k] == (x, y) ==> k == Index(width, x, y)
  {
    RowMajorOrder(width, height);
    IndexInRange(width, height, x, y);
    var r := RowMajor(width, height);
    var p := r[Index(width, x, y)];
    IndexInjective(width, height, p.0, p.1, x, y);
  }

  /** The colour `render` gives pixel (x, y). */
  function PixelColor(objects: seq<Sphere>, intersect: Intersector, rayDirection: (int, int) -> Vector3, x: int, y: int): Color {
    TraceColor(objects, ORIGIN, rayDirection(x, y), intersect)
  }

  /** Pixel (px, py) comes before pixel (x, y) in row-major order. */
  predicate Before(px: int, py: int, x: int, y: int) {
    py < y || (py == y && px < x)
  }

  /** The state of the buffer while `render` is at pixel (x, y): the pixels before it hold
      their traced colour and the rest hold what they held before `render` began. */
  ghost predicate DrawnUpTo(buf: seq<Color>, start: seq<Color>, width: nat, height: nat,
                            objects: seq<Sphere>, intersect: Intersector, rayDirection: (int, int) -> Vector3, x: int, y: int)
    requires |buf| == width * height && |start| == width * height
  {
    forall px, py :: InBounds(width, height, px, py) ==>
      Lookup(buf, width, height, px, py)
      == if Before(px, py, x, y) then Some(PixelColor(objects, intersect, rayDirection, px, py))
         else Lookup(start, width, height, px, py)
  }

  /** Plotting pixel (x, y) with its traced colour moves the drawn region one pixel on. */
  lemma DrawnStep(buf: seq<Color>, start: seq<Color>, width: nat, height: nat,
                  objects: seq<Sphere>, intersect: Intersector, rayDirection: (int, int) -> Vector3, x: int, y: int)
    requires |buf| == width * height && |start| == width * height
    requires InBounds(width, height, x, y)
    requires DrawnUpTo(buf, start, width, height, objects, intersect, rayDirection, x, y)
    ensures DrawnUpTo(Plot(buf, width, height, x, y, PixelColor(objects, intersect, rayDirection, x, y)),
                      start, width, height, objects, intersect, rayDirection, x + 1, y)
  {
    var c := PixelColor(objects, intersect, rayDirection, x, y);
    forall px, py | InBounds(width, height, px, py)
      ensures Lookup(Plot(buf, width, height, x, y, c), width, height, px, py)
              == if Before(px, py, x + 1, y) then Some(PixelColor(objects, intersect, rayDirection, px, py))
                 else Lookup(start, width, height, px, py)
    {
      LookupAfterPlot(buf, width, height, x, y, c, px, py);
    }
  }

  /** Having drawn a whole row is having drawn nothing of the next one. */
  lemma DrawnNextRow(buf: seq<Color>, start: seq<Color>, width: nat, height: nat,
                     objects: seq<Sphere>, intersect: Intersector, rayDirection: (int, int) -> Vector3, y: int)
    requires |buf| == width * height && |start| == width * height
    requires DrawnUpTo(buf, start, width, height, objects, intersect, rayDirection, width, y)
    ensures DrawnUpTo(buf, start, width, height, objects, intersect, rayDirection, 0, y + 1)
  {
    forall px, py | InBounds(width, height, px, py)
      ensures Before(px, py, width, y) == Before(px, py, 0, y + 1)
    {
    }
  }

  /** `render`: for each row top to bottom and each pixel left to right, casts the pixel's
      ray from the origin, makes the result the pen colour and plots the pixel. The ghost
      `visits` records the pixels in the order they are drawn. */
  method Render(fb: Framebuffer, objects: seq<Sphere>, intersect: Intersector, rayDirection: (int, int) -> Vector3)
    returns (ghost visits: seq<(int, int)>)
    requires fb.Valid()
    modifies fb, fb.colorBuffer
    ensures fb.Valid()
    ensures visits == RowMajor(fb.width, fb.height)
    ensures forall x, y :: InBounds(fb.width, fb.height, x, y) ==>
              Lookup(fb.colorBuffer[..], fb.width, fb.height, x, y)
              == Some(TraceColor(objects, ORIGIN, rayDirection(x, y), intersect))
    ensures fb.width > 0 && fb.height > 0 ==>
              fb.current == TraceColor(objects, ORIGIN, rayDirection(fb.width - 1, fb.height - 1), intersect)
    ensures fb.width == 0 || fb.height == 0 ==> fb.current == old(fb.current)
    ensures fb.background == old(fb.background)
  {
    var width, height := fb.width, fb.height;
    ghost var start := fb.colorBuffer[..];
    visits := [];
    for y := 0 to height
      invariant fb.Valid() && fb.background == old(fb.background)
      invariant visits == RowMajor(width, y)
      invariant DrawnUpTo(fb.colorBuffer[..], start, width, height, objects, intersect, rayDirection, 0, y)
      invariant y > 0 && width > 0 ==> fb.current == PixelColor(objects, intersect, rayDirection, width - 1, y - 1)
      invariant y == 0 || width == 0 ==> fb.current == old(fb.current)
    {
      for x := 0 to width
        invariant fb.Valid() && fb.background == old(fb.background)
        invariant visits == RowMajor(width, y) + Row(width, y)[..x]
        invariant DrawnUpTo(fb.colorBuffer[..], start, width, height, objects, intersect, rayDirection, x, y)
        invariant x > 0 ==> fb.current == PixelColor(objects, intersect, rayDirection, x - 1, y)
        invariant x == 0 && (y == 0 || width == 0) ==> fb.current == old(fb.current)
        invariant x == 0 && y > 0 && width > 0 ==>
                    fb.current == PixelColor(objects, intersect, rayDirection, width - 1, y - 1)
      {
        var direction := rayDirection(x, y);
        var pixelColor := CastRay(ORIGIN, direction, objects, intersect);
        fb.SetCurrentColor(pixelColor);
        DrawnStep(fb.colorBuffer[..], start, width, height, objects, intersect, rayDirection, x, y);
        fb.SetPixel(x, y);
        assert Row(width, y)[..x + 1] == Row(width, y)[..x] + [(x, y)];
        visits := visits + [(x, y)];
      }
      assert Row(width, y)[..width] == Row(width, y);
      DrawnNextRow(fb.colorBuffer[..], start, width, height, objects, intersect, rayDirection, y);
    }
    assert forall x, y :: InBounds(width, height, x, y) ==> Before(x, y, 0, height);
  }
}
