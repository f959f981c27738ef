# Framebuffer and closest-hit selection of a small Rust ray tracer

This project models the parts of the ray tracer that work with discrete values rather than floats.

- `Framebuffers` covers `raytracer/src/framebuffer.rs`. It is a `Framebuffer` class with these fields:
  - `width` and `height`;
  - a row-major `array<Color>` standing in for the raylib `Image` (pixel (x, y) sits at offset `y * width + x`);
  - a `background` colour, used by `clear`;
  - a `current` pen colour, used by `set_pixel`.
- Two pure functions over the pixel sequence specify the raylib calls: `Lookup` (behind `get_pixel_color`) and `Plot` (behind `set_pixel`). The lemmas about them give the round trip and the frame conditions.
- `Tracer` covers `raytracer/src/main.rs`:
  - `CastRay` is the closest-hit loop. It starts from the background colour `Color(4, 12, 36, 255)` and the sentinel `f32::MAX`, and keeps an object's colour only on a strictly closer hit.
  - `Render` is the nested row-major pixel loop. For each pixel it calls `CastRay`, `SetCurrentColor` and `SetPixel`.
- The geometry is not modelled. Two oracle parameters stand in for it:
  - an `Intersector`, the `RayIntersect` contract of `raytracer/src/ray_intersect.rs`, which maps an object and a ray to `Option<distance>`;
  - a per-pixel direction function for the perspective projection.
- Distances are `real`s that are only compared with `<`.
- `Color` is four bytes. `Winner` is the reference definition of the selection: the first object whose hit is closest among all hits below the sentinel, specified declaratively by `IsFirstClosest`. `TraceColor` turns the winner into a colour.

## Model

| member | source | states |
|---|---|---|
| `Framebuffers.Framebuffer.constructor` | raytracer/src/framebuffer.rs:10-19 | the buffer has the given size and every pixel is BLACK; the background is BLACK and the pen is WHITE |
| `Framebuffers.Framebuffer.Clear` | raytracer/src/framebuffer.rs:21-23 | every pixel holds the background colour afterwards; background and pen are unchanged |
| `Framebuffers.Framebuffer.SetPixel` | raytracer/src/framebuffer.rs:24-28 | the new pixels are the old ones plotted with the pen colour at (x, y); out of bounds, no pixel changes; background and pen are unchanged |
| `Framebuffers.Framebuffer.GetPixelColor` | raytracer/src/framebuffer.rs:30-36 | returns `None` exactly when (x, y) is out of bounds and otherwise the stored colour; changes nothing (no modifies clause) |
| `Framebuffers.Framebuffer.SetBackgroundColor` | raytracer/src/framebuffer.rs:37-39 | sets only the background; the pen and every pixel are unchanged, so a new background appears only after the next `Clear` |
| `Framebuffers.Framebuffer.SetCurrentColor` | raytracer/src/framebuffer.rs:40-42 | sets only the pen colour; the background and every pixel are unchanged |
| `Framebuffers.IndexInjective` | raytracer/src/framebuffer.rs:25-26 | two in-bounds pixels with the same row-major offset are the same pixel, so an in-bounds `set_pixel` touches one pixel only |
| `Framebuffers.LookupAfterPlot` | raytracer/src/framebuffer.rs:24-36 | after plotting c at (x, y), reading (x, y) gives `Some(c)` when it is in bounds; reading any other pixel, or any pixel after an out-of-bounds plot, gives the old reading |
| `Framebuffers.PlotThenLookup` | raytracer/src/framebuffer.rs:24-36 | round trip: after an in-bounds `set_pixel(x, y)`, `get_pixel_color(x, y)` is `Some` of the pen colour |
| `Tracer.Winner` | raytracer/src/main.rs:25-35 | the selected object is `None` exactly when no object reports a hit below the `f32::MAX` sentinel; otherwise it is hit, no hit is closer, and every earlier hit is strictly farther (ties go to the earliest object) |
| `Tracer.FirstClosestUnique` | raytracer/src/main.rs:29-33 | at most one object is the first closest hit, so the strict `<` leaves no choice on a tie |
| `Tracer.ClosestExists` | raytracer/src/main.rs:25-35 | when some object is hit below the sentinel, a first closest hit exists |
| `Tracer.SentinelNeverWins` | raytracer/src/main.rs:21-29 | a reported distance that is not below `f32::MAX` is never selected |
| `Tracer.TraceNoHit` | raytracer/src/main.rs:21-37 | with no hit below the sentinel the ray's colour is the background `Color(4, 12, 36, 255)` |
| `Tracer.TraceClosest` | raytracer/src/main.rs:25-36 | the ray's colour is the colour of the first closest object it hits |
| `Tracer.TraceFromScene` | raytracer/src/main.rs:22-32 | the ray's colour is the background or the colour of some object of the scene |
| `Tracer.CastRay` | raytracer/src/main.rs:15-38 | the loop over the objects with `closest_t` and `hit_color` returns exactly the colour of `Winner` (the background when it selects nothing) |
| `Tracer.RowMajorOrder` | raytracer/src/main.rs:47-48 | the row-major order of a width-by-height buffer has `width * height` entries, and its k-th entry is the in-bounds pixel at offset k |
| `Tracer.RowMajorVisitsOnce` | raytracer/src/main.rs:47-48 | every in-bounds pixel occurs in the row-major order exactly once, at its own offset |
| `Tracer.DrawnStep` | raytracer/src/main.rs:60-63 | plotting a pixel with its traced colour extends the finished region by that pixel and leaves the other pixels as they were |
| `Tracer.Render` | raytracer/src/main.rs:40-66 | visits the pixels in row-major order; afterwards every in-bounds pixel reads back `Some` of the traced colour of its ray from the origin; the pen holds the colour of the last pixel (width-1, height-1) on a non-empty buffer and is unchanged on an empty one; the background is unchanged |

## Left out

- The sphere's quadratic intersection test (`raytracer/src/sphere.rs`) is left out because it is floating-point arithmetic. It takes part only as the `Intersector` oracle.
- `sphere.rs` does not match `main.rs`: it gives a sphere a `material` and returns an `Intersect` type, which it imports from `ray_intersect.rs` (sphere.rs:3), but `ray_intersect.rs` does not define `Intersect`. The model follows `main.rs`, where a sphere has a `color` and the intersection returns `Option<f32>`.
- The camera (`raytracer/src/camera.rs`) is left out: its basis construction and `basis_change` are float vector algebra, and `render` never calls them.
- `Material` and `vector3_to_color` (`raytracer/src/material.rs`) are left out: `Material` is a struct of float fields with trivial constructors, `vector3_to_color` is a floating-point conversion, and the modelled code uses neither.
- The perspective projection in `render` is left out. This covers the field of view, `tan`, the aspect ratio, the screen coordinates and the normalisation. A direction function of (x, y) replaces it.
- `main` is left out: the window setup, the literal snowman scene, the frame loop, and the `swap_buffers` call to a method that `framebuffer.rs` says was removed.
- The internals of the raylib `Image` are left out. `gen_image_color`, `clear_background`, `draw_pixel` and `get_color` are modelled as reads and writes of a row-major array.
- Framebuffer.constructor: requires non-negative sizes. The source hands any `i32` to raylib, and the model does not capture what raylib does with a negative size.
- Framebuffer: `width` and `height` are constants. The source's fields are public, but nothing in the modelled code reassigns them.
- Framebuffer: the offset `y * width + x` is computed in unbounded integers, so a 32-bit overflow on a huge buffer is not modelled.
- CastRay: distances are mathematical reals, not `f32`. A reported positive infinity or NaN never passes the test `t < closest_t` (main.rs:29), so it behaves like a real distance that is not below `F32_MAX`: it is never selected. A reported negative infinity passes the test and no later report can beat it; any real below every other reported distance stands for it.
- This ray tracer has no reflection, refraction, shadows, cubes, textures or parallel render loop: it traces one flat-coloured hit per ray from the origin, in one sequential loop, and the model does the same.
