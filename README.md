# genny — the integer and structural core of the pattern generator

`src/lib.rs` of genny is a Yew component that draws a generative SVG
picture: arrows of a flow field on a lattice, polylines that follow the
field from every border cell and from random free cells, and a hundred
non-overlapping circles in three tiers. `render_paths` packs its own,
separate set of circles and tints each path by the first of those it
starts in. This project models, in Dafny, the parts of that
component that decide *where* things go and *how many* there are:

- `Border` — `Model::border_point`, the walk over the canvas border that
  seeds one path per index below `(width + height) * 2`.
- `Arrows` — the lattice of arrow positions,
  `(0 .. n - step).step_by(step).skip(1)` on both axes.
- `Sampler` — the rejection sampler of `random_point` and
  `gen_random_point`: draw a cell, retry while it is excluded, panic on the
  10000th rejection. The loop is one method; the two callers differ only in
  their exclusion test.
- `CirclePacker` — `Model::circles`, the fold that places 100 circles in
  three tiers, each sampled against all circles placed before it, and
  `select_path_color`.
- `PathTracer` — `render_path` (a start point plus `(width + height) / 200`
  steps along the field) and `render_paths` (border starts, then random
  starts outside every cell already visited, with the cells each path
  covers recorded in `all_points`).
- `Component` — the component state: `create`, `update` (each message flips
  exactly one layer switch) and `change`.
- `Geometry` — the shared value types.

Modelling choices:

- The `&self` helpers read only `width`, `height` and `step`, so they take
  these as parameters. The mutable component state is the class
  `Component.Model`.
- Randomness is injected. `rng(j)` stands for the value behind the
  `j`-th `gen_range` call, and that call yields `rng(j) % n`. Each attempt
  draws `x`, then `y`. Every sampling member takes the position of its first draw and
  returns the position after its last, so `circles` and `render_paths`
  thread one stream through all their draws, as the source's single thread
  generator does.
- The panic `"should never be reached"` is the result `Exhausted`. A panic
  in any draw aborts `circles` and `render_paths`, so they return
  `Exhausted` too.
- `in_circle` is the parameter `inCircle(p, circle, other_radius)`. The
  flow step (`angle_at_rad`, `cos`/`sin` and the step length) is the
  parameter `advance(q)`: the point one step along the field from `q`.
- `f32` coordinates are exact reals. The cast `p.x as u32` is modelled as
  Rust defines it: truncation toward zero, saturating at 0 and at
  `u32::MAX`. `self.width as u32` keeps the low 32 bits.
- Preconditions are only those the source demands of its callers:
  `width >= 1` and `height >= 1` for `border_point`, for the sampler and for
  everything that calls them (`i % width`, `height - 1`,
  `gen_range(0, width)`); `1 <= step <= n` for the arrow ranges
  (`n - step` on `usize`, and `step_by(0)` panics); and a non-empty path for
  `select_path_color`, which unwraps the path's first point
  (src/lib.rs:346). Every path `render_path` returns has at least its start
  point, so the path loop always meets that precondition.
- `TierOf` keeps the source's constants: the exclusion distance passed to
  `gen_random_point` is 60 for the radius-50 tier, 20 for radius 20 and 10
  for radius 10.
- `circles` can panic, so the model states 100 circles for every run that
  does not panic, and states exactly when it panics: at some step, all
  10000 attempts fall inside the circles already placed.

## Model

| member | source | states |
|---|---|---|
| `Border.BorderPoint` | src/lib.rs:207-224 | for positive width and height, every index yields a cell inside the canvas that lies on its outer ring |
| `Border.BorderPointRanges` | src/lib.rs:207-224 | index ranges map to the sides: `i < w` gives `(i, 0)`, `w <= i < 2w` gives `(i-w, h-1)`, `2w <= i < 2w+h` gives `(0, i-2w)`, `2w+h <= i < 2(w+h)` gives `(w-1, i-2w-h)` |
| `Border.BorderIndexInverts` | src/lib.rs:207-224 | every border cell has an index below `(w+h)*2` that maps back to it |
| `Border.BorderWalkCoversBorder` | src/lib.rs:316-319 | a cell is produced by some index below `(w+h)*2` if and only if it is an in-bounds border cell |
| `Border.BorderCornerRepeats` | src/lib.rs:207-224 | the walk is not injective: indices 0 and `2w` both give the corner `(0, 0)` |
| `Arrows.StepByAt` | src/lib.rs:228 | item `k` of `(lo..hi).step_by(step)` is `lo + k*step` and is below `hi` |
| `Arrows.StepByLength` | src/lib.rs:228 | `step_by` stops only when the next multiple would reach `hi` |
| `Arrows.ArrowPositionsShape` | src/lib.rs:234 | after `skip(1)`, position `k` is `(k+1)*step`, all positions lie below `n - step`, and no further multiple fits |
| `Arrows.ArrowPositionsMembers` | src/lib.rs:228 | `v` is a position if and only if it is a positive multiple of `step` below `n - step` |
| `Arrows.InitialCanvasPositions` | src/lib.rs:226-236 | on the initial 500-wide canvas with step 15 there are 32 positions, from 15 to 480 |
| `Arrows.ArrowLine` | src/lib.rs:232-236 | a row holds one arrow per column position; a cell is in it if and only if its x is a column position and its y is the row |
| `Arrows.RowsLength` | src/lib.rs:226-230 | the rows together hold (rows × columns) arrows |
| `Arrows.RowsShape` | src/lib.rs:226-230 | a cell is among the rows if and only if its column and its row are positions |
| `Arrows.ArrowGridMembers` | src/lib.rs:226-236 | a cell carries an arrow if and only if both coordinates are positive multiples of `step` below `width - step` and `height - step` |
| `Sampler.Attempt` | src/lib.rs:193-195 | each attempt draws a cell inside the canvas |
| `Sampler.SampleFromPanics` | src/lib.rs:190-205 | from attempt `k` the loop panics if and only if every remaining attempt is excluded, and a panic has used every draw |
| `Sampler.SampleFromAccepts` | src/lib.rs:190-205 | from attempt `k` an accepted cell is the first non-excluded attempt, every earlier attempt is excluded, and two draws per attempt up to it are used |
| `Sampler.SampleSpec` | src/lib.rs:190-205 | an accepted cell is in bounds and not excluded; the loop panics if and only if all 10000 attempts are excluded; it uses between 1 and 10000 attempts |
| `Sampler.SamplePoint` | src/lib.rs:190-205 | the loop with its attempt counter computes exactly the sampler's outcome and next draw position |
| `Sampler.RandomPoint` | src/lib.rs:190-205 | `random_point` returns an in-bounds cell not in `points`; it panics if and only if all 10000 attempts hit `points`; it makes at most 10000 attempts |
| `Sampler.GenPointSpec` | src/lib.rs:247-266 | an accepted centre is a canvas point outside every listed circle grown by `diameter` |
| `Sampler.GenRandomPoint` | src/lib.rs:247-266 | `gen_random_point` returns the sampled cell as a point, outside every circle grown by `diameter` |
| `CirclePacker.TierOrder` | src/lib.rs:271-294 | tier radii never grow with the index, and each tier's exclusion distance is at least its radius |
| `CirclePacker.ExhaustedSticks` | src/lib.rs:270-297 | once a draw panics, the rest of the fold does not change the outcome |
| `CirclePacker.PlaceCirclesFailIndex` | src/lib.rs:270-297 | a panicking fold names a step below `n` that was reached without a panic and at which `gen_random_point` panicked |
| `CirclePacker.PackStepAborts` | src/lib.rs:270-297 | a step at which `gen_random_point` panics makes every longer fold panic |
| `CirclePacker.PackStepPanics` | src/lib.rs:247-266 | a step fails if and only if every one of its 10000 attempts lands inside some circle placed before it, grown by the tier's exclusion distance |
| `CirclePacker.PlaceCirclesFails` | src/lib.rs:268-298 | the fold of `n` steps panics if and only if, at some step `i < n`, every attempt lands inside the circles placed before it, grown by tier `i`'s distance |
| `CirclePacker.PlaceCirclesPrefix` | src/lib.rs:270-297 | a fold that finished `n` steps holds `n` circles, and after any `i <= n` steps it held exactly the first `i` of them |
| `CirclePacker.PlaceCirclesAt` | src/lib.rs:270-297 | circle `i` of a finished fold is tier `i`'s circle around the centre `gen_random_point` returned, from the draw position reached after `i` steps, against the first `i` circles |
| `CirclePacker.PlaceCirclesShape` | src/lib.rs:268-298 | a finished fold of `n` steps holds `n` circles; circle `i` has tier `i`'s radius and colour, and its centre is what `gen_random_point` returns against exactly the first `i` circles, drawing from where the fold stood after `i` steps |
| `CirclePacker.PlaceCirclesClear` | src/lib.rs:268-298 | every centre lies on the canvas and outside each earlier circle grown by its tier's distance; radii are non-increasing along the list |
| `CirclePacker.Circles` | src/lib.rs:268-298 | the fold computes exactly the packing's outcome and, unless it panics, returns 100 circles |
| `CirclePacker.FirstMatch` | src/lib.rs:347-350 | the index returned is the first circle holding the point, or the list length when none does |
| `CirclePacker.SelectPathColorSpec` | src/lib.rs:341-354 | a path starting inside some circle takes the colour of the first such circle; one starting outside all takes `#669BBC` |
| `PathTracer.Trace` | src/lib.rs:361-374 | a trace of `n` steps has `n + 1` points |
| `PathTracer.TraceShape` | src/lib.rs:356-375 | a trace starts at its start point and each point is one field step from the one before |
| `PathTracer.TraceUnique` | src/lib.rs:356-375 | any sequence that starts at the start point and follows the field is the trace of its length |
| `PathTracer.RenderPath` | src/lib.rs:356-375 | `render_path(p)` has `(width + height) / 200 + 1` points, the first being `p` as a point, each next one a field step further |
| `PathTracer.AsU32` | src/lib.rs:329-330 | the float cast truncates toward zero into `0 ..= u32::MAX`, saturating at both ends |
| `PathTracer.WrapU32` | src/lib.rs:331 | the integer cast never grows a value and keeps it when it fits in 32 bits |
| `PathTracer.VisibleCellsSpec` | src/lib.rs:328-336 | a cell is recorded for a path if and only if some path point casts into it and passes the bounds test; every recorded cell is on the canvas |
| `PathTracer.RecordVisible` | src/lib.rs:328-336 | the loop appends exactly the path's visible cells to `all_points` |
| `PathTracer.VisitedHas` | src/lib.rs:317-338 | `all_points` holds every visible cell of every earlier path |
| `PathTracer.StartAtSpec` | src/lib.rs:318-322 | index `i < (w+h)*2` starts at border cell `i` without a draw and never panics; a later index starts at an in-bounds cell not in `all_points` and panics if and only if all 10000 attempts hit `all_points` |
| `PathTracer.DrawStroke` | src/lib.rs:318-326 | the loop body computes exactly one iteration: the start cell, then the stroke traced and coloured from it, or the panic of `random_point` |
| `PathTracer.DrawnAppend` | src/lib.rs:317-337 | appending a stroke keeps every invariant of the fold and extends `all_points` by the new path's visible cells |
| `PathTracer.DrawFromSticks` | src/lib.rs:317-338 | once an iteration panics, the rest of the fold does not change the outcome |
| `PathTracer.DrawFromFails` | src/lib.rs:317-338 | the fold of `n` iterations panics if and only if one of its iterations fails |
| `PathTracer.PathStepFails` | src/lib.rs:318-322 | an iteration fails if and only if it is a random one (index at least `(w+h)*2`) and `random_point` panics there |
| `PathTracer.DrawFromSpec` | src/lib.rs:317-338 | a finished fold of `n` iterations holds `n` strokes: each traced from its start and coloured by the circles, the first `(w+h)*2` at the border walk, each later one outside every cell of earlier paths |
| `PathTracer.DrawPaths` | src/lib.rs:317-338 | the loop with `acc` and `all_points` computes exactly the fold's outcome and next draw position |
| `PathTracer.RenderPathsSpec` | src/lib.rs:312-339 | unless it panics, `render_paths` draws `(w+h)*2 + num_paths` strokes as `DrawFromSpec` says, against the packed circles; it panics if and only if the packer panics or `random_point` panics at some iteration at or after `(w+h)*2` |
| `PathTracer.RenderPaths` | src/lib.rs:312-339 | the method computes exactly the outcome that `RenderPathsSpec` characterises: pack the circles, then fold `(w+h)*2 + num_paths` iterations on the same draws |
| `Component.Toggle` | src/lib.rs:87-94 | a message flips exactly its own switch; the other two switches, width, height and step are unchanged |
| `Component.ToggleTwice` | src/lib.rs:87-94 | the same message twice restores the state |
| `Component.ToggleCommutes` | src/lib.rs:87-94 | two messages give the same state in either order |
| `Component.ApplyAllParity` | src/lib.rs:87-94 | after any sequence of messages a switch has flipped exactly when its message occurs an odd number of times; the dimensions never change |
| `Component.Model.Create` | src/lib.rs:75-85 | `create` gives width 500, height 500, step 15 and all switches off |
| `Component.Model.Update` | src/lib.rs:87-94 | `update` changes the fields as `Toggle` says and returns true |
| `Component.Model.Change` | src/lib.rs:96-101 | `change` returns false and leaves the state alone |
| `Component.ClickTwice` | src/lib.rs:75-94 | a fresh component clicked twice on the same box is back in its initial state |

## Left out

- The Yew/WASM plumbing: `view`, the `html!` markup, `render_circles`, the component link, `run_app`, the `log!` macro and the panic hook. These are UI and framework code.
- The flow-field formula (`angle_calculation`, `angle_at_rad`, `angle_at_deg`) and the per-arrow rotation of `render_arrow`. They are `f32` trigonometry. `render_path` takes the field step as the parameter `advance`.
- The circles `view` draws. `render_circles` calls `circles` a second time,
  on later draws of the thread generator, so the drawn packing is in general
  not the one `render_paths` colours its paths by. The model states each
  packing on its own and nothing that relates the two.
- `in_circle`. It compares an `f32` square root. The packer and the colour lookup take it as the parameter `inCircle`, so its monotonicity in the radius is not stated.
- `Path::draw`. It formats floats into SVG path text.
- The computation of `num_paths`. `RenderPaths` takes it as a parameter, because the source computes it with an `f32` multiply and a float-to-integer cast.
- `f32` rounding. Points are exact reals, so integer coordinates above 2^24 and the rounding inside the flow step are not modelled.
- The distribution of `rand::thread_rng`. The model injects the raw draws and takes `gen_range(0, n)` as a draw modulo `n`. Which draws occur is a parameter, so no probability is stated.
- `usize` overflow of `2 * width`, `(width + height) * 2` and the like. The model uses unbounded integers. The source only overflows for canvases near `usize::MAX`.
