# kratsfract core in Dafny

This project models the computational core of kratsfract, a GTK fractal viewer written in Rust. It covers five parts.

- **Fractals** (`src/basicfractals.rs`):
  - the `julia` escape loop;
  - the Mandelbrot and Julia evaluators: `calc` normalises the escape index by the iteration budget, and `change_maxiter` derives an evaluator with a new budget.
- **Palettes** (`src/palette.rs`):
  - the palette state, whose hue origin `cycle` moves back and forth;
  - the mapping of an escape value to an RGB triple through `hsl2rgb` and `hue_to_rgb`.
- **MaxIter** (`src/main.rs`, `inc_maxiter` and `dec_maxiter`): the closures that raise or lower the budget. Each step is the largest power of ten not above a third of the budget, or 1 when that third (integer division) is 0.
- **Canvas** and **Render** (`src/main.rs`, `FractalRendering`):
  - the producer thread, which computes one colour per pixel in row-major order and sends it down a channel;
  - `do_receive`, which drains the channel into the packed RGB buffer and remembers where it stopped, so that the next call resumes there.
- **Timing** with **Decimal** (`src/main.rs`, `PT`): how an elapsed time is printed in µs, ms or s.

Model choices:

- Everything is an immutable value, and each operation is a pure function or a method over values. `do_receive` is the method `Render.DoReceive`, which runs the same nested loops as the source. It is proved equal to the closed form `Render.Job.Receive`, and every cross-call property is stated about that closed form.
- The channel is the sequence of colours waiting in it. The producer's send outcome is a parameter `accepts(k)`, which says whether the k-th send succeeds.
- A `calc` result is `Num(real)` or `NaN`. The source computes `0.0 / 0.0` when the budget is 0.
- Three consequences of the code that the model keeps:
  - **Budget of zero.** Nothing rejects a budget of 0. `calc` then computes 0.0/0.0, which is NaN, and the palette paints NaN black.
  - **Mandelbrot at 2+2i.** The orbit is 0, 2+2i, so the point escapes at index 1. Its value is `1/maxiter` once the budget is at least 2, and 0 with a budget of 1.
  - **Hue wrap.** `hue_to_rgb` moves a hue outside [0, 1] back by one turn only. A hue below -1 therefore gives a shade outside [m1, m2] when m1 < m2.

## Model

| member | source | states |
|---|---|---|
| Fractals.EscapeLoop | src/basicfractals.rs:17-24 | entered at iteration i, the loop returns 0 or an index in i..maxI-1. A nonzero result is the first iterate with squared modulus above 4. If no iterate escapes within the budget, the result is 0 |
| Fractals.EscapeCount | src/basicfractals.rs:15-25 | `julia` returns the first escaping iterate's index, which is below the budget. It returns 0 exactly when the budget is 0, the start already escapes, or nothing escapes within the budget |
| Fractals.EscapeCountIsFirstEscape | src/basicfractals.rs:17-22 | if the first escape happens at index k with 0 < k < budget, `julia` returns k |
| Fractals.Fractal.Calc | src/basicfractals.rs:37-40 | `calc` is NaN exactly when maxiter is 0. Otherwise it lies in [0, (maxiter - 1)/maxiter], so below 1 (Mandelbrot at 37-40, Julia at 64-66) |
| Fractals.Fraction | src/basicfractals.rs:39 | `i / n` with i < n lies in [0, (n - 1)/n], multiplies back to i, and is 0 exactly when i is 0 |
| Fractals.VariantsSwapRoles | src/basicfractals.rs:64-66 | Mandelbrot at p equals the Julia evaluator with constant p taken at the origin, for every budget |
| Fractals.CalcZeroIffNoLaterEscape | src/basicfractals.rs:18-24 | with a budget of at least 1, `calc` is 0 if and only if the start escapes at once or never escapes within the budget |
| Fractals.Fractal.ChangeMaxiter | src/basicfractals.rs:67-72 | the new evaluator is the same variant with the same Julia constant, and its budget is `f(maxiter)`. Mandelbrot at 41-43 is the same |
| Fractals.MandelbrotOriginIsInside | src/basicfractals.rs:37-39 | the origin's Mandelbrot value is 0 for every budget of at least 1 |
| Fractals.ImmediateEscapeReadsAsInside | src/basicfractals.rs:18-19 | a Julia start point outside radius 2 reads 0, the same as a point that never escapes |
| Fractals.MandelbrotAtTwoPlusTwoI | src/basicfractals.rs:15-25 | Mandelbrot at 2+2i is 0 with a budget of 1 and `1/maxiter` with a budget of at least 2 |
| Palettes.Default | src/palette.rs:8-13 | the initial palette is in the bounded cycling range |
| Palettes.Palette.Cycle | src/palette.rs:15-21 | past 1 in the current direction the scale turns round and the origin stays. Otherwise the origin moves one 0.06 step and the scale stays. The bounded range is preserved |
| Palettes.CyclingStaysBounded | src/palette.rs:15-21 | any number of `cycle` calls from the default keeps the scale at ±1 and the origin within one step of [-1, 1] |
| Palettes.Palette.Color | src/palette.rs:23-31 | value 0 and NaN give black, and value 1 gives white |
| Palettes.InsideStaysBlack | src/palette.rs:24-25 | after any number of cycles, value 0 is still painted black |
| Palettes.Levels | src/palette.rs:35-40 | m1 + m2 = 2l. With full saturation and l in [0, 1], 0 <= m1 <= m2 <= 1 |
| Palettes.Hsl2Rgb | src/palette.rs:34-45 | with full saturation, lightness in [0, 1] and hue at least -2/3, every channel lies in [0, 1] |
| Palettes.HueToRgb | src/palette.rs:47-64 | when m1 <= m2 and the hue is at least -1, the shade lies between the levels |
| Palettes.Between | src/palette.rs:56 | the interpolation `m1 + (m2 - m1) * t` with t in [0, 1] stays between m1 and m2 |
| Palettes.FlatLevelsGiveOneShade | src/palette.rs:55-63 | with equal levels every hue gives that level |
| Palettes.HueToRgbPeriodic | src/palette.rs:48-54 | within one turn on either side, the shade repeats with period 1 |
| Palettes.HueWrapsOnlyOnce | src/palette.rs:48-56 | a hue of -1.5 is not reduced into [0, 1]. Its shade, -3, leaves the range between levels 0 and 1 |
| Numeric.SaturatingByte | src/palette.rs:29 | `as u8` of a channel saturates at 0 and 255 and otherwise truncates toward zero |
| MaxIter.PowerOfTenAtMost | src/main.rs:206 | the result is a power of ten p with p <= n < 10p, i.e. `10^floor(log10 n)` |
| MaxIter.DetailStep | src/main.rs:206 | the step is a power of ten. It is 1 when i / 3 is 0; otherwise it is the largest power of ten not above i / 3 |
| MaxIter.DetailStepMonotone | src/main.rs:206 | the step never shrinks as the budget grows |
| MaxIter.IncMaxiter | src/main.rs:204-207 | "more detail" raises the budget if and only if it is below 3294967296. From there up the wrapping u32 addition gives a smaller budget |
| MaxIter.IncMaxiterWraps | src/main.rs:206 | at 4294967295 the step is 10^9, and the wrapping u32 addition gives 999999999 |
| MaxIter.DecMaxiter | src/main.rs:212-215 | "less detail" gives at least 1. It strictly lowers every budget of at least 2, keeps 1 at 1, and lowers by at most one step |
| MaxIter.DecAfterIncNotAbove | src/main.rs:202-216 | for a starting budget from 1 up to 3294967295, one "more detail" followed by one "less detail" never ends above it |
| MaxIter.IncMaxiterReachesZero | src/main.rs:202-216 | "more detail" from 3294967296 wraps to a budget of 0, where `calc` is NaN. "Less detail" from 0 wraps to 4294967295, so the pair can end above where it started |
| MaxIter.GigaStep | src/main.rs:206 | every budget from 3000000000 up to the u32 maximum has step 10^9 |
| MaxIter.DecKeepsCalcDefined | src/main.rs:212-215 | after "less detail" the budget is at least 1, so `calc` is a number, not NaN |
| Decimal.Show | src/main.rs:39 | `{}` of a number is a non-empty digit string with no leading zero, and it reads back as the number |
| Decimal.ZeroPad | src/main.rs:44 | `{:03}` gives digits of length max(3, digit count) that read back as the number |
| Decimal.ShowBelowThousand | src/main.rs:44 | a millisecond count below 1000 has at most three digits, so `{:03}` pads it to exactly three |
| Timing.Format | src/main.rs:33-47 | under 5 ms the text is the whole microseconds followed by " µs". Under a second it is the whole milliseconds, between 5 and 999, followed by " ms". Otherwise it is the seconds, a dot, three digits of milliseconds and " s". Each branch's digits read back as the value, and the leading number has at least one digit and no leading zero |
| Timing.PaddedMilliseconds | src/main.rs:44 | 1 s 5 ms prints as "1.005 s" |
| Timing.BelowSwitchOver | src/main.rs:38-39 | 4999999 ns prints as "4999 µs" |
| Timing.AtSwitchOver | src/main.rs:40-41 | 5000000 ns prints as "5 ms" |
| Canvas.PixelOffsetIs | src/main.rs:127 | pixel k's bytes start at `(k / width) * rowstride + (k % width) * n_channels` |
| Canvas.PixelInBounds | src/main.rs:127-130 | in a buffer holding the image, all three bytes of every pixel exist |
| Canvas.PixelsInOrder | src/main.rs:127-130 | distinct pixels' byte triples never overlap, and they lie in row-major order |
| Canvas.PaintWrites | src/main.rs:128-130 | after writing a colour at pixel k, pixel k reads as that colour and every byte outside its triple is unchanged |
| Canvas.PaintKeepsPixel | src/main.rs:128-130 | writing pixel k leaves every other pixel as it was |
| Canvas.PaintRunPaints | src/main.rs:123-131 | writing a run of colours from pixel lo gives pixel k the colour at position k - lo |
| Canvas.PaintRunKeepsOthers | src/main.rs:123-131 | pixels outside the run keep their colour |
| Canvas.PaintRunAppend | src/main.rs:123-142 | writing a run and then the next run from where the first ended equals writing both runs at once |
| Render.Job.Complete | src/main.rs:117 | the negated guard of `do_receive`: for a reachable position, the rendering is complete exactly when the stored position is (width, height) |
| Render.Job.Cursor | src/main.rs:123-124 | the resume position is at most the pixel count. It equals the pixel count once complete, and is a real pixel while inside the image |
| Render.NewJob | src/main.rs:105-112 | a new rendering starts at pixel 0 with the given buffer |
| Render.JobAt | src/main.rs:135-137 | stopping at pixel k records a position whose row-major number is k. It is complete exactly at the end, and otherwise inside the image |
| Render.DoReceive | src/main.rs:116-148 | the nested drain loops compute exactly `Job.Receive`: the same buffer, the same resume position, the same colours left in the channel, and the same returned flag |
| Render.ReceiveAdvances | src/main.rs:116-148 | a complete rendering is untouched and returns true. The result is true exactly when the image is complete. The position advances by min(colours waiting, pixels left), exactly the untaken colours stay queued, and a false result leaves the channel empty |
| Render.ReceiveFillsPixels | src/main.rs:125-131 | every pixel between the old and new position gets the colour received for it |
| Render.ReceiveKeepsOtherPixels | src/main.rs:123-141 | pixels before the old position or at or after the new one are unchanged |
| Render.ReceiveWritesOnlyPixels | src/main.rs:127-130 | a call changes no byte outside the three-byte triples of the pixels it fills, so row padding and all other bytes are untouched |
| Render.ReceiveTwice | src/main.rs:123-142 | resuming from where a call stopped, with what was left plus newly arrived colours, ends where one call with all the colours would |
| Render.SessionIsOneReceive | src/main.rs:116-148 | any sequence of calls, however the colours are split between them, ends as one call receiving them all |
| Render.DoneStaysDone | src/main.rs:117 | once a call has returned true, later calls change nothing and keep returning true |
| Render.Produce | src/main.rs:91-104 | the producer sends colours in row-major order, the k-th being pixel (k % w, k / w). Everything sent was accepted, and it stops at the first refused send or after w*h colours. What was sent is a prefix of the whole image |
| Render.SentIsPrefix | src/main.rs:93-101 | colours sent in row-major order form a prefix of the row-major image |
| Render.PixelColor | src/main.rs:95-96 | the producer's colour for pixel (x, y), the `colorAt` that `Produce` and `RenderShowsImage` take. A pixel whose value reads 0, or every pixel when the budget is 0, is black whatever the palette state |
| Render.RenderShowsImage | src/main.rs:91-148 | when the producer's output arrives in any split across calls, the position equals the number of colours received and the result is true exactly when all pixels arrived. Every received pixel k shows colorAt(k % width, k / width) |

## Left out

- The GTK window, cairo drawing, key handling, `redraw` and the `Transform` from pixel to complex point. The transform is a parameter `xform` of `Render.PixelColor`, and the image's colour function is a parameter `colorAt` elsewhere.
- Threads and `mpsc`: the channel is the queue of waiting colours. `try_recv`'s `Empty` and `Disconnected` both end a drain, and are not told apart. Send failure is the parameter `accepts`.
- `Instant` and the `println!` calls: timing is a `Duration` value given to `Timing.Format`.
- The `Pixbuf` allocation: `Canvas.Layout` takes width, height, rowstride and channel count as given. Negative i32 sizes and i32 overflow of `y * rowstride + x * n_channels` are not modelled.
- The `Display` impls of the evaluators and `Drop` for `FractalRendering`.
- f64 and f32 arithmetic is modelled with exact reals. This affects the complex iteration, the `as f32` division in `calc` (which can round up to 1.0 for huge budgets), and the palette arithmetic.
- MaxIter.DetailStep: `10.powi(log10(i / 3) as i32)` is modelled as the exact largest power of ten not above i / 3. Rounding of `log10` next to a power of ten is not modelled.
- MaxIter.IncMaxiter: u32 overflow is modelled as wrap-around, as in a release build; a debug build panics there. The wrap is shown at 4294967295 by `MaxIter.IncMaxiterWraps` and at 3294967296, down to 0, by `MaxIter.IncMaxiterReachesZero`.
- MaxIter.DecMaxiter: u32 wrap-around is modelled as in a release build. For budgets of at least 1 the step is at most the budget, so there is no underflow. At budget 0 the subtraction `0 - 1` underflows: a release build wraps to 4294967295, and a debug build panics. "More detail" reaches budget 0 from 3294967296 (`MaxIter.IncMaxiterReachesZero`).
- Render.Produce: says which colours were sent and where sending stopped. It does not state that no pixel is computed after the failed send.
