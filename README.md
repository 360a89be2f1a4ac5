# esp32-thermalcam image pipeline in Dafny

This project models the image pipeline of an ESP32 thermal camera. The camera reads a
32 x 24 grid of temperatures from an MLX90640 sensor and shows it on a TFT display as a
false-colour heat map. The model covers the steps from a measured frame to the squares
that are drawn:

- per-pixel temporal denoising, using exponential smoothing;
- the temperature range, either fixed or following each frame, and the breakpoints derived from it;
- optional upscaling;
- colour mapping;
- the horizontally mirrored drawing loops.

It also covers the pieces of state logic around the pipeline:

- the scalar Kalman filter used for the battery voltage;
- the cycling interpolation mode;
- the legacy MLX camera view;
- the refresh throttle and run-time arithmetic of the status bar.

Floats are modelled as exact `real`s. The renderer's pixels can also be not-a-number, so
its not-a-number guard means something. `uint32_t` wrap-around is written out modulo
2^32. Display calls become returned sequences of `Square`s, positioned relative to the
text cursor. Colours are RGB byte triples.

Files, one module each:
- `arith.dfy`: shared integer and real facts.
- `wrappers.dfy`: `Option`.
- `image.dfy`: the `Image` container and the mirrored and central index arithmetic.
- `filters.dfy`: exponential smoothing and the Kalman filter.
- `interpolation.dfy`: clamped grid access and bilinear resampling.
- `colormap.dfy`: the heat map, the breakpoints and the legacy R/G/B ramps.
- `display.dfy`: the drawn square.
- `renderer.dfy`: the sensor renderer.
- `mlxcamera.dfy`: the legacy camera.
- `infobar.dfy`: the status bar.

`getFalseColor` has no guard for `maxTemp == minTemp` (see Findings). The drawing loops
are modelled with the colouring as written, and the guarded colouring is kept beside it.

`interpolate_image_bilinear` and `interpolate_image_bicubic` are called at
renderer.cpp:154-156 but defined in none of the files modelled, so the upscaler is a
parameter of the renderer.

The corner-matching `interpolate_image` that does exist is modelled in full.

## Model

| member | source | states |
|---|---|---|
| `Filters.FilterExponential` | filters.h:40-42 | the output's distance to the measurement is the previous output's distance scaled by 1 - factor |
| `Filters.FilterBetween` | filters.h:40-42 | for a factor in [0, 1] the output lies between the previous output and the measurement |
| `Filters.FilterExtremeFactors` | filters.h:40-42 | factor 1 returns the measurement, factor 0 the previous output |
| `Filters.FilterFixedPoint` | filters.h:40-42 | a previous output equal to the measurement is kept |
| `Filters.FilterHalfway` | filters.h:40-42 | factor 0.5 between 10 and 20 gives 15 |
| `Filters.SmoothedError` | filters.h:40-42 | under a constant measurement the error after n frames is (1 - factor)^n times the initial error |
| `Filters.SmoothedErrorStep` | filters.h:40-42 | one more frame turns an error of (1 - factor)^(n-1) times the initial error into (1 - factor)^n times it |
| `Filters.SmoothedApproaches` | filters.h:40-42 | under a constant measurement the error never grows, for a factor in [0, 1] |
| `Filters.KalmanGain` | filters.h:20 | the gain lies in [0, 1) and G * (Pc + R) == Pc |
| `Filters.PosteriorCovariance` | filters.h:21 | (1 - G) * Pc lies in [0, Pc], stays below the measurement variance and equals Pc * R / (Pc + R) |
| `Filters.KalmanEstimate` | filters.h:24 | the new error is (1 - G) times the old error; for G in [0, 1] the estimate lies between the old estimate and the measurement |
| `Filters.KalmanFilter.constructor` | filters.h:11-15 | only the two variances are set; the estimate starts at 0 with covariance 1 |
| `Filters.KalmanFilter.Process` | filters.h:17-26 | one predict/update step: all six fields updated as the source does, P stays non-negative, the estimate moves towards the measurement and is returned |
| `Filters.KalmanApproaches` | filters.h:17-26 | a step never moves the estimate away from a constant measurement |
| `Images.Image.constructor` | image.h:9-14 | width and height are fixed, the storage holds width * height samples, all zero |
| `Images.Image.At` | image.h:22 | element read |
| `Images.Image.Put` | image.h:22 | element write changes exactly one sample |
| `Images.MirroredIndex` | renderer.cpp:136 | (width - 1 - x) + y * width is in bounds, in row y, at column width - 1 - x |
| `Images.MirrorInvolution` | renderer.cpp:136 | mirroring column width - 1 - x reads column x: each drawn row is the source row reversed |
| `Images.CentreBlock` | renderer.cpp:203 | the four centre cells lie in rows h/2 - 1, h/2 and columns w/2 - 1, w/2 |
| `Images.SensorCentreBlock` | mlxcamera.cpp:192 | on 32 x 24 the centre block is cells 383-16, 383-15, 384+15, 384+16, symmetric about the middle |
| `Interpolation.ClampedIndex` | interpolation.cpp:8-12 | the clamped index is in bounds and equals y * cols + x inside the grid |
| `Interpolation.ClampedIndexDecodes` | interpolation.cpp:9-11 | only the upper bounds are clamped: the index decodes to the clamped column and row |
| `Interpolation.GetPoint` | interpolation.cpp:8-12 | inside the grid the plain row-major sample; always one of the grid's samples |
| `Interpolation.GetPointClampsColumn` | interpolation.cpp:9 | past the last column the last column is repeated |
| `Interpolation.GetPointClampsRow` | interpolation.cpp:10 | past the last row the last row is repeated |
| `Interpolation.SetPoint` | interpolation.cpp:14-16 | writes exactly cell y * cols + x |
| `Interpolation.Adjacents` | interpolation.cpp:49-54 | four taps, each a sample of the source grid |
| `Interpolation.AdjacentsInterior` | interpolation.cpp:49-54 | away from the border the taps are (x,y), (x+1,y), (x,y+1), (x+1,y+1) in row-major order |
| `Interpolation.GetAdjacents2D` | interpolation.cpp:49-54 | fills the four-slot buffer with exactly those taps |
| `Interpolation.BilinearInterpolate` | interpolation.cpp:42-46 | the four corners of the unit square reproduce the four taps |
| `Interpolation.BilinearWithin` | interpolation.cpp:42-46 | inside the unit square the blend stays within any bounds of the taps |
| `Interpolation.BilinearFlat` | interpolation.cpp:42-46 | a flat neighbourhood blends to its value |
| `Interpolation.SourceCoordinate` | interpolation.cpp:22-30 | the source coordinate runs from 0 to src - 1, the last destination index hitting src - 1 |
| `Interpolation.FractionInUnit` | interpolation.cpp:33-34 | the fraction split off a non-negative coordinate lies in [0, 1) |
| `Interpolation.ResampleCell` | interpolation.cpp:29-36 | the loop body computes the bilinear value at the cell's source coordinate |
| `Interpolation.InterpolateImage` | interpolation.cpp:20-39 | every destination cell is written with its resampled value; the source is unchanged |
| `Interpolation.UpsampledCellAt` | interpolation.cpp:27-38 | cell y_idx * dest_cols + x_idx holds the value resampled at (x_idx, y_idx) |
| `Interpolation.UpsampledOnGridPoint` | interpolation.cpp:29-35 | a cell landing exactly on a source point reproduces that sample |
| `Interpolation.UpsampledCorners` | interpolation.cpp:22-35 | the first and last destination cells equal the first and last source samples |
| `Interpolation.AlignedCoordinate` | interpolation.cpp:22-30 | with dest - 1 == factor * (src - 1), cell factor * i maps to source coordinate i |
| `Interpolation.UpsampledAligned` | interpolation.cpp:22-35 | with an integer factor, every factor-th cell is a source sample |
| `Interpolation.UpsampledWithin` | interpolation.cpp:29-36 | resampled values never leave the bounds of the source grid |
| `Interpolation.TwoByTwoToThreeByThree` | interpolation.cpp:20-46 | [[0,10],[20,30]] to 3 x 3 keeps the corners, gives 5, 10, 20, 25 at the edge midpoints and 15 in the centre |
| `ColorMap.Channel` | renderer.cpp:57-59 | a channel moved by a fraction in [0, 1) stays between the two stops; fraction 0 gives the lower stop |
| `ColorMap.StopIndex` | renderer.cpp:52-54 | for an interior value idx1 lies in [0, 4], so idx1 and idx2 = idx1 + 1 index the table |
| `ColorMap.HeatmapColor` | renderer.cpp:36-59 | at most 0 gives the first stop, at least 1 the last stop, and in between every channel lies between the two neighbouring stops |
| `ColorMap.HeatmapAtStop` | renderer.cpp:52-59 | a normalised value k/5 maps exactly onto stop k |
| `ColorMap.HeatmapMidpoint` | renderer.cpp:52-59 | the middle of the range is (127, 255, 0) |
| `ColorMap.NormaliseAsWritten` | renderer.cpp:40 | with a zero-width range, float division gives not-a-number exactly at the range's value |
| `ColorMap.FalseColorAsWritten` | renderer.cpp:33-62 | `getFalseColor` as written; no colour is defined exactly when the range is flat and the value lies on it |
| `ColorMap.FlatRangeHasNoColor` | renderer.cpp:40-53 | a flat range sends its own value through 0 / 0 |
| `ColorMap.FalseColor` | renderer.cpp:33-62 | the guarded heat map agrees with the code on every proper range and gives the lowest stop on a flat one |
| `ColorMap.Breakpoints` | mlxcamera.cpp:150-156 | a, b, c, d are ordered inside an ordered range, strictly inside a proper one, and collapse onto a flat one |
| `ColorMap.ClampToByte` | mlxcamera.cpp:105 | constrain-then-truncate gives 0 at or below 0, the top at or above it and the floor in between |
| `ColorMap.Ramp` | mlxcamera.cpp:105 | the source's ramp expression is the line through (from, 0) and (to, peak) |
| `ColorMap.RampRising` | mlxcamera.cpp:105 | a rising ramp is at most 0 up to its start and at least its peak from its end |
| `ColorMap.RampFalling` | mlxcamera.cpp:116 | a falling ramp is at most 0 from its start and at least its peak up to its end |
| `ColorMap.LegacyColorAsWritten` | mlxcamera.cpp:94-134 | `getColor` as written, for breakpoints in any order: no colour exactly when a branch it takes divides by zero; always a colour on strictly ordered breakpoints, never one on collapsed ones |
| `ColorMap.LegacyUnorderedExample` | mlxcamera.cpp:105-130 | on breakpoints (5, 1, 2, 2) in [0, 10], the value 3 takes green's first ramp and is coloured (255, 153, 30), without dividing by c - d |
| `ColorMap.LegacyColor` | mlxcamera.cpp:94-134 | `getColor` on strictly ordered breakpoints; blue exceeds 240 only at or below b |
| `ColorMap.LegacyRed` | mlxcamera.cpp:105 | red is 0 up to b and 255 from c on |
| `ColorMap.LegacyGreen` | mlxcamera.cpp:109-120 | green is 0 at or below the minimum, 255 on [a, c] and 0 from d on |
| `ColorMap.LegacyBlue` | mlxcamera.cpp:122-130 | blue is 255 up to a, 0 on (b, d], at most 240 above d and 240 from the maximum on |
| `ColorMap.LegacyColdest` | mlxcamera.cpp:105-130 | at or below the minimum the colour is pure blue |
| `ColorMap.GuardedLegacyColor` | mlxcamera.cpp:94-134 | `getColor` with a guard: it agrees with the code on ordered breakpoints, gives blue on collapsed ones, and gives blue at or below the minimum either way; on ordered breakpoints it is the colour as written |
| `Renderer.Next` | renderer.h:17-24 | the mode advances one place in the cycle none, linear, cubic, modulo 3 |
| `Renderer.NextCycles` | renderer.h:17-24 | three steps restore the mode and no step keeps it |
| `Renderer.PostIncrement` | renderer.h:17-24 | the operator updates the variable to the next mode of the cycle and returns the updated value |
| `Renderer.UpScaledGeometry` | renderer.h:56-58 | the upscaled grid is 94 x 70 and dest - 1 == 3 * (src - 1) on both axes |
| `Renderer.SensorGridAligned` | renderer.h:51-58 | corner-matching resampling from 32 x 24 to 94 x 70 reproduces every sensor sample at every third cell |
| `Renderer.DenoisedSample` | renderer.cpp:146 | factor 0.4 smoothing with not-a-number propagating; a numeric result lies between the old value and the measurement |
| `Renderer.MinMaxElement` | renderer.cpp:111 | both extrema are elements of the frame |
| `Renderer.SmallestIsLowest` | renderer.cpp:111 | a numeric minimum is at most every numeric pixel |
| `Renderer.ExtremaBound` | renderer.cpp:111 | without not-a-number pixels both extrema are numbers and bound every pixel |
| `Renderer.LeadingNaNStays` | renderer.cpp:111-112 | a not-a-number first pixel is reported as the minimum |
| `Renderer.ExtremaOrdered` | renderer.cpp:111 | numeric extrema are ordered |
| `Renderer.ScaledRange` | renderer.cpp:106-119 | a fixed range is kept; an ordered range stays ordered; a dynamic range whose extrema are numbers becomes two pixel values, and for a frame without not-a-number exactly its smallest and largest values; otherwise, and whenever the first or last pixel is not a number, the old range is kept |
| `Renderer.TrailingNaNStays` | renderer.cpp:111 | a not-a-number last pixel is reported as the largest element |
| `Renderer.FlatFrameRange` | renderer.cpp:111-116 | a flat frame in dynamic mode gives a zero-width range |
| `Renderer.FlatFrameUndefinedColor` | renderer.cpp:40 | as drawn, no pixel of a flat frame in dynamic mode has a colour |
| `Renderer.FlatFrameColor` | renderer.cpp:136 | with the guard every pixel of a flat frame in dynamic mode gets the lowest stop |
| `Renderer.PixelColor` | renderer.cpp:136 | the colour `drawImage` uses, `getFalseColor` as written: not-a-number and a value on a flat range get none; on a proper range the guarded heat map's colour; on a flat range the last stop above it and the first below it |
| `Renderer.KeptFlatRangeColors` | renderer.cpp:33-62 | a flat range 25 to 25 kept because the first pixel is not a number draws 27 in the last stop and 23 in the first |
| `Renderer.GuardedPixelColor` | renderer.cpp:136 | with the guard every number gets a colour, the code's on a proper range and the lowest stop on a flat one |
| `Renderer.DrawnCellAt` | renderer.cpp:134-138 | the square for (x, y) sits at (x * scale, 10 + y * scale) and shows pixel (width - 1 - x) + y * width |
| `Renderer.DrawnRowMirrored` | renderer.cpp:136 | the square at column width - 1 - x shows the pixel at column x |
| `Renderer.ResamplingFor` | renderer.cpp:153-156 | bilinear exactly for the linear mode |
| `Renderer.SensorRenderer.constructor` | renderer.h:53-74 | 32 x 24 and 94 x 70 zeroed images, fixed range 20 to 45, breakpoints 0 |
| `Renderer.SensorRenderer.SetFixedTemperatureRange` | renderer.cpp:21-26 | fixed mode with the range reset to 20 to 45 |
| `Renderer.SensorRenderer.SetDynamicTemperatureRange` | renderer.cpp:28-31 | dynamic mode; nothing else changes |
| `Renderer.SensorRenderer.SetAbcd` | renderer.cpp:122-128 | the breakpoints of the current range, ordered inside it |
| `Renderer.SensorRenderer.SetTempScale` | renderer.cpp:106-119 | in fixed mode nothing changes; otherwise the range of ScaledRange and its breakpoints; the range stays ordered |
| `Renderer.SensorRenderer.DenoiseRawPixels` | renderer.cpp:141-147 | each filtered pixel is smoothed with its own measurement, even when the measured image is the filtered one |
| `Renderer.SensorRenderer.InterpolateImage` | renderer.cpp:149-157 | the upscaled image becomes the selected upscaler's output for the filtered frame |
| `Renderer.SensorRenderer.DrawImage` | renderer.cpp:130-139 | one square per pixel, rows top to bottom, each row mirrored; no state changes |
| `Renderer.SensorRenderer.DrawFrame` | renderer.cpp:159-173 | denoise, then rescale (breakpoints kept in fixed mode, recomputed from the new range in dynamic mode), then either draw the filtered frame at scale 9 or upscale and draw at scale 3 |
| `Renderer.SensorRenderer.CenterTemperature` | renderer.cpp:203 | the mean of the central 2 x 2 block, not-a-number if any of the four is |
| `MlxCamera.ScaleOrdered` | mlxcamera.cpp:136-147 | the scanned range of a frame is ordered |
| `MlxCamera.ScaleUnique` | mlxcamera.cpp:136-147 | the scan's outcome is determined by the frame |
| `MlxCamera.FlatFrameCollapses` | mlxcamera.cpp:136-156 | a flat frame in [0, 255] scans to a zero-width range and collapsed breakpoints, where `getColor` has no colour |
| `MlxCamera.ScaledFrameColored` | mlxcamera.cpp:94-156 | after `setTempScale` on a frame that is not flat every pixel has a colour, the guarded one |
| `MlxCamera.LegacyCellAt` | mlxcamera.cpp:160-162 | the square for (x, y) sits at (8 + 7x, 8 + 7y) and shows pixel (31 - x) + 32y, which is in bounds |
| `MlxCamera.InitialBreakpointsHaveNoColor` | mlxcamera.cpp:13-18 | with the constructor's breakpoints, all 0, no value has a colour |
| `MlxCamera.MLXCamera.constructor` | mlxcamera.cpp:13-18 | the frame holds the given stand-in values; the range starts at 20 to 40 |
| `MlxCamera.MLXCamera.SetAbcd` | mlxcamera.cpp:150-156 | the breakpoints of the current range |
| `MlxCamera.MLXCamera.SetTempScale` | mlxcamera.cpp:136-147 | the range is min(255, coldest pixel) to max(0, hottest pixel), ordered, with its breakpoints |
| `MlxCamera.MLXCamera.ReadImage` | mlxcamera.cpp:63-67 | only the range is recomputed |
| `MlxCamera.MLXCamera.DrawImage` | mlxcamera.cpp:158-165 | one 7 x 7 square per pixel, rows top to bottom, each row mirrored, coloured by `getColor` as written (none where it divides by zero); no state changes |
| `MlxCamera.MLXCamera.CenterTemperature` | mlxcamera.cpp:192 | the mean of the central 2 x 2 block (rows 11-12, columns 15-16) |
| `InfoBar.SplitRunTime` | infobar.cpp:36-39 | seconds and minutes are below 60 and hours * 3600 + minutes * 60 + seconds == t / 1000 |
| `InfoBar.RunTimeUnique` | infobar.cpp:37-39 | no other split with minutes and seconds below 60 exists |
| `InfoBar.RunTimeExample` | infobar.cpp:36-39 | 3 725 000 ms is 1 h 2 min 5 s |
| `InfoBar.IdleTime` | infobar.cpp:30 | uint32 subtraction: the difference, or it plus 2^32 when processing exceeds the frame; adding processing back gives the frame time |
| `InfoBar.ThresholdAdvances` | infobar.cpp:11-13 | after any calls the threshold is start + 500 * refreshes modulo 2^32; it is never reset to the time |
| `InfoBar.CatchUp` | infobar.cpp:11-13 | with the threshold k periods behind, k calls at the same time all refresh |
| `InfoBar.InfoBar.constructor` | infobar.h:22 | the threshold starts at 0 |
| `InfoBar.InfoBar.Update` | infobar.cpp:10-22 | refreshes exactly when the time is strictly past the threshold, then advances it by 500 modulo 2^32, and shows the run time and frame figures |

## Left out

- IEEE-754 arithmetic: rounding, infinities and signed zeros are not modelled; values are exact reals. Only the renderer's pixels carry not-a-number. Only `getFalseColor`'s normalisation models the infinities of a zero-width range.
- `tft.color565` packing into RGB565, and every TFT_eSPI call. Drawing is modelled as the sequence of squares `fillRect` receives, relative to the text cursor.
- `drawLegendGraph`, `drawLegendText` and `MLXCamera::drawLegend`: display output only.
- The cross, circle, triangle, text and the `mapf` screen mapping of both `drawCenterMeasurement`s. Only the averaged centre temperature is modelled.
- `SensorRenderer::getColor` (renderer.cpp:64-104) is the same function as `MLXCamera::getColor` and is never called in the renderer. `ColorMap.LegacyColorAsWritten` models both.
- `MLXCamera::init` and `readPixels` (I2C and the MLX90640 driver), and the `random(0, 41)` fill. The fill's values are a constructor parameter.
- The battery voltage: the ADC read and `printBatteryVoltage`. The Kalman update it uses is modelled.
- The performance counters and `LOG_PERF`: timing instrumentation.
- The bodies of `interpolate_image_bilinear` and `interpolate_image_bicubic` are not part of this model. The renderer takes the upscaler as a per-cell function of the mode and the filtered frame.
- The `%02d` formatting and printing in the info bar. `millis()` is a parameter of `Update`.
- `Renderer.MinMaxElement`: `std::minmax_element` is modelled as a left-to-right scan with IEEE `<` (first smallest, last largest). A not-a-number pixel inside the frame can make the model's result differ from libstdc++'s, which compares elements in pairs: on [5, 3, NaN, 1] the library gives (3, 5) and the model (1, 1); on [30, NaN, 10] the library gives (10, NaN), keeping the old range, and the model (10, 10). `Renderer.SmallestIsLowest` holds for the model's scan only.
- `ColorMap.LegacyColor`: requires minTemp < a < b < c < d < maxTemp, the order `setAbcd` establishes for every range that is not flat. Other orders go through `ColorMap.LegacyColorAsWritten`.
- `MlxCamera.MLXCamera.DrawImage`: where `getColor` divides by zero (the constructor's breakpoints, all 0, before the first `setTempScale`, and every flat frame) the square has no colour (`None`). The float result the source then draws is not modelled.
- `Renderer.PixelColor`: a value on a flat range, whose normalisation is 0 / 0, and a not-a-number pixel have no colour (`None`). The float-to-index conversion the source then performs is not modelled.
- `Interpolation.InterpolateImage`: requires source dimensions of at most 127 and destination dimensions from 2 to 128. Coordinates travel as `int8_t`, and the step divides by dest - 1.

## Findings

| source | as written | input that shows it | evidently intended | confidence | as-written member | corrected member |
|---|---|---|---|---|---|---|
| renderer.cpp:40 | the value is normalised by maxTemp - minTemp with no guard for a flat range | dynamic range with all 768 filtered pixels at 25.0: the range becomes 25 to 25 and each pixel normalises to 0 / 0, whose floor is converted to a table index (`Renderer.FlatFrameUndefinedColor`) | a flat frame drawn in one deterministic colour, the lowest stop | not executed | `Renderer.PixelColor` | `Renderer.GuardedPixelColor` |
| mlxcamera.cpp:105 | the red ramp divides by c - b, which is zero when the range is flat | all 768 pixels at 25.0: `setTempScale` gives 25 to 25 and `setAbcd` puts a = b = c = d = 25 (`MlxCamera.FlatFrameCollapses`) | a flat frame drawn in one deterministic colour, the coldest (blue) | not executed | `ColorMap.LegacyColorAsWritten` | `ColorMap.GuardedLegacyColor` |
