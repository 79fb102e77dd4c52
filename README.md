# Beam-spring and Sanderling matrix drivers

A Dafny model of the key-matrix scanning in two QMK keyboards, with proofs
about it.

- **beamic** (keyboards/beamic) reads capacitive beam-spring keyboards on an
  STM32:
  - TIM4 steps through the columns. Its CC1 interrupt releases the current
    column and stores the TIM3/TIM5 input captures of every row in
    `beam_values[col][row]`. Its update interrupt selects the next column.
  - After the last column of a sweep, the interrupt wakes the scan task.
  - The scan task masks the dead keys, publishes the rows, and keeps four
    calibration extremes over the raw samples.
  - The scan task also asks `value_histogram` to print a histogram of all
    samples at most every 250 ms. When it does, the extremes are reset.
  - Three `beam_config.h` headers fix the column period, the read window and
    the press threshold from the capture clock. Two `#error` checks in
    matrix.c refuse configurations that cannot be measured.
- **deadkeys.py** prints the `BEAM_DEAD_KEYS` bitmap: the matrix positions
  that the first layout (in name order) does not use.
- **sanderling** (keyboards/sanderling) selects one row at a time through a
  74x138 decoder wired in reverse order, and reads the column pins as
  active-low.

Modules:

| module | file | models |
|---|---|---|
| `Bits` | bits.dfy | 16/8-bit words, `matrix_row_t` column bits, `col_mask <<= 1` |
| `BeamConfig` | beam_config.dfy | the three `beam_config.h` files and the `#error` checks of beamic/matrix.c |
| `Histogram` | histogram.dfy | beamic/histogram.c, as a class holding `last_report` and `val_bins` |
| `BeamMatrix` | beam_matrix.dfy | beamic/matrix.c, as a class holding its statics (`beam_values`, `dead_keys`, `cal_keys`, `current_column`, the extremes) |
| `SanderlingMatrix` | sanderling_matrix.dfy | sanderling/matrix.c |
| `DeadKeys` | deadkeys.dfy | deadkeys.py: Python integers, the bitmap loop, the layout choice and the printed line with a parser for it |

How the model is built:

- Stateful code is written as methods with loops over arrays. Each method is
  specified against a function of the inputs:
  - `BinCounts` gives the histogram bins, and `RenderLine` the glyph line;
  - `RunExtremes` gives the calibration extremes, and `NewMatrix` the
    Sanderling matrix;
  - `DeadRows` gives the dead-key bitmap, and `MaskedDead` the dead keys
    after init.
- Lemmas say what those functions mean:
  - which cells each extreme ranges over;
  - that the bins count every sample, modulo 256;
  - that a bit is set iff its pin reads low, or iff its position is unused;
  - that the printed bitmap line parses back.

## Model

| member | source | states |
|---|---|---|
| Bits.MaskStep | keyboards/beamic/matrix.c:175-177 | the column mask starts at 1 and `col_mask <<= 1` moves it to the next column's bit |
| Bits.BitOfOr | keyboards/sanderling/matrix.c:41 | OR-ing in column k's mask sets bit k and leaves every other column's bit as it was |
| BeamConfig.PeriodTruncates | keyboards/beamic/beam_config.h:7 | BEAM_COL_PERIOD is the largest period whose full sweep at the scan rate fits in one second of capture ticks (truncating division) |
| BeamConfig.WindowHalvesPeriod | keyboards/beamic/beam_config.h:10 | BEAM_COL_WINDOW is half the period rounded down: `2*window <= period <= 2*window+1`, hence `window <= period` |
| BeamConfig.PeriodShrinksWithColumns | keyboards/beamic/beam_config.h:7 | more columns never give a longer column period |
| BeamConfig.FasterScanShortensPeriod | keyboards/beamic/ibm_f_xt/beam_config.h:4-7 | the IBM F XT's 1000 Hz scan rate gives a period no longer than the 500 Hz boards' |
| BeamConfig.ThresholdIgnoresScanRate | keyboards/beamic/beam_config.h:15 | the threshold depends only on the capture clock and its fraction, not on the scan rate or the column count |
| BeamConfig.SixteenthsThreshold | keyboards/beamic/ibm327x_75key/beam_config.h:15 | the 3/16 threshold is at least the 3/32 one and at most twice it plus one; the IBM F XT's equals the generic one |
| BeamConfig.ThresholdBinFitsByte | keyboards/beamic/matrix.c:157-162 | in any configuration that passes both `#error` checks, `BEAM_THRESHOLD >> 7` fits a uint8_t, so the histogram's threshold bin is exact |
| BeamConfig.Ibm327xBuildsAt168MHz | keyboards/beamic/matrix.c:157-162 | with a 168 MHz capture clock and 20 columns, the 3270 board has a 16800-tick period and a 3150-tick threshold, and it passes both checks |
| BeamConfig.Ibm327xRefusedAt32Columns | keyboards/beamic/matrix.c:157-159 | the same board with 32 columns fails the threshold-versus-window check |
| BeamConfig.Ibm327xCalInsideDead | keyboards/beamic/ibm327x_75key/beam_config.h:20-25 | both bitmaps have 4 rows, and every calibration bit is already dead, so init's OR leaves dead_keys unchanged |
| BeamConfig.IbmFXtHasNoCalPads | keyboards/beamic/ibm_f_xt/beam_config.h:25-30 | both bitmaps have 8 rows, the calibration bitmap is all zero, and init's OR leaves dead_keys unchanged |
| Histogram.BinOf | keyboards/beamic/histogram.c:23-27 | a sample lands in a bin below HIST_BINS whose 128-wide range holds it, except that the last bin takes everything above |
| Histogram.BinOfAsWritten | keyboards/beamic/histogram.c:24-27 | the shift truncated to uint8_t before the clamp still yields a bin below HIST_BINS |
| Histogram.AsWrittenAgreesBelow32768 | keyboards/beamic/histogram.c:24 | for samples below 32768 the truncation is harmless and both binnings agree |
| Histogram.AsWrittenAgreesOnStoredSamples | keyboards/beamic/histogram.c:24-27 | with fewer than 256 bins, both binnings agree on every sample below 32768 and on the fallback 65535, which covers every value matrix.c stores |
| Histogram.AsWrittenMisbins32768 | keyboards/beamic/histogram.c:24 | with 24 bins, sample 32768 goes to bin 0 as written but belongs in the last bin (23) |
| Histogram.BinOfMonotone | keyboards/beamic/histogram.c:23-27 | a larger sample never lands in a lower bin |
| Histogram.CountsStep | keyboards/beamic/histogram.c:28 | counting one more sample raises exactly its own bin by one |
| Histogram.BinCountsStep | keyboards/beamic/histogram.c:28 | the same for the uint8_t bins, which wrap at 256 |
| Histogram.CountsTotal | keyboards/beamic/histogram.c:23-29 | every sample is counted in exactly one bin: the counts sum to the number of samples |
| Histogram.SumWrapped | keyboards/beamic/histogram.c:15 | storing counts as uint8_t preserves their sum modulo 256 |
| Histogram.BinTotals | keyboards/beamic/histogram.c:23-29 | the uint8_t bins sum to ROWS*COLS modulo 256 |
| Histogram.GlyphMeaning | keyboards/beamic/histogram.c:34-48 | a bar or `X` appears exactly at the threshold bin, a bar or a space exactly for an empty bin, and `.`, `o`, `O` exactly for counts 1-4, 5-19 and 20+ elsewhere |
| Histogram.RenderLine | keyboards/beamic/histogram.c:31-50 | the printed line is `[`, one glyph per bin (the threshold bin's meaning at its index), then `]` and a newline |
| Histogram.Histogram.ReportDue | keyboards/beamic/histogram.c:13-18 | a report is due only with HIST_BINS defined, never within 250 ms of the last one, and always after that |
| Histogram.Histogram.ThreshBin | keyboards/beamic/histogram.c:30 | when the threshold is below 32768 ticks, the threshold bin is the one whose 128-tick range holds it |
| Histogram.Histogram.constructor | keyboards/beamic/histogram.c:14-15 | `last_report` starts at 0 and every bin at 0 |
| Histogram.Histogram.ValueHistogram | keyboards/beamic/histogram.c:12-52 | nothing changes unless HIST_BINS is defined and 250 ms have passed; otherwise `last_report` is now, the bins are the (wrapping) counts of the samples under the corrected binning, and the line is rendered from them |
| BeamMatrix.CaptureValue | keyboards/beamic/matrix.c:87-95 | a flagged capture yields its CCR; an unflagged one yields 0 when the row pin is still high and 65535 when it is low |
| BeamMatrix.RowChannel | keyboards/beamic/matrix.c:124-126 | row r reads capture channel r mod 4 of TIM3 for rows 0-3 and of TIM5 for rows 4-7 |
| BeamMatrix.NextColumn | keyboards/beamic/matrix.c:138-140 | the incremented column wraps to 0 at MATRIX_COLS and stays in range |
| BeamMatrix.NoBroadcastBeforeLastColumn | keyboards/beamic/matrix.c:128-133 | CC1 events on columns before the last one wake no scan |
| BeamMatrix.BroadcastAtLastColumn | keyboards/beamic/matrix.c:128-133 | reaching the last column wakes the scan once, and counting continues from there |
| BeamMatrix.OneBroadcastPerSweep | keyboards/beamic/matrix.c:128-141 | from any column, one full sweep of MATRIX_COLS CC1/update pairs wakes the scan exactly once |
| BeamMatrix.OrMasksCalPads | keyboards/beamic/matrix.c:49-50 | after init's OR every calibration pad is a dead key, and a key that was neither dead nor calibration stays live |
| BeamMatrix.CalPadsMaskedOut | keyboards/beamic/matrix.c:49-50 | after init, `cal_keys[row] & ~dead_keys[row] == 0` on every row |
| BeamMatrix.CalibrateBounds | keyboards/beamic/matrix.c:183-201 | one cell's update: `max_any` and `min_any` become the maximum and minimum of their old value and the sample; `max_low` takes the sample only on a dead, non-calibration pad and `min_high` only on a calibration pad, each keeping the larger or smaller value |
| BeamMatrix.CellsIsProduct | keyboards/beamic/matrix.c:17 | the cells of k columns of n rows, counted column by column, are k*n |
| BeamMatrix.Flatten | keyboards/beamic/histogram.c:23 | the samples handed to value_histogram are MATRIX_COLS * MATRIX_ROWS values (counted column by column) |
| BeamMatrix.FlattenCell | keyboards/beamic/histogram.c:23 | the memory walk is column-major: cell (col, row) is value number `col*ROWS + row` |
| BeamMatrix.BeamMatrix.ScanHistogramTotal | keyboards/beamic/matrix.c:209 | the histogram Scan asks for counts all ROWS*COLS samples of beam_values, modulo 256 |
| BeamMatrix.BeamMatrix.constructor | keyboards/beamic/matrix.c:14-17 | the statics start as BEAM_DEAD_KEYS, BEAM_CAL_KEYS, zeroed samples, column COLS-1 and the reset extremes |
| BeamMatrix.BeamMatrix.Init | keyboards/beamic/matrix.c:33-51 | every column pin is released, every sample reads 65535 (unpressed), and each dead-key row gains its calibration bits and nothing else |
| BeamMatrix.BeamMatrix.ReadInputCaptures | keyboards/beamic/matrix.c:85-111 | exactly the four slots of one column starting at the timer's first row get the channel values; every other sample is unchanged |
| BeamMatrix.BeamMatrix.Tim4Irq | keyboards/beamic/matrix.c:113-155 | CC1 releases the current column, writes only that column's samples (TIM3 rows, then TIM5 rows) and wakes the scan at the last column; then the update event advances the column, wrapping to 0, and selects it; at most one column stays selected |
| BeamMatrix.BeamMatrix.MaxAnyIsMax | keyboards/beamic/matrix.c:196-198 | `max_any` is the maximum of its old value and every sample scanned so far, and is one of them |
| BeamMatrix.BeamMatrix.MaxLowIsMax | keyboards/beamic/matrix.c:183-194 | `max_low` is the maximum of its old value and the samples of dead, non-calibration pads |
| BeamMatrix.BeamMatrix.MinHighIsMin | keyboards/beamic/matrix.c:183-188 | `min_high` is the minimum of its old value and the samples of calibration pads |
| BeamMatrix.BeamMatrix.MinAnyIsMin | keyboards/beamic/matrix.c:199-201 | `min_any` is the minimum of its old value and every sample |
| BeamMatrix.BeamMatrix.NoCalPadsKeepMinHigh | keyboards/beamic/ibm_f_xt/beam_config.h:29-30 | with an all-zero calibration bitmap no cell takes the `min_high` branch, so `min_high` keeps its value |
| BeamMatrix.BeamMatrix.ScanRows | keyboards/beamic/matrix.c:172-208 | every published row is 0 (no threshold test, dead keys masked), the result is true iff some row was non-zero before, and the extremes are folded over all cells in row-major order |
| BeamMatrix.BeamMatrix.Scan | keyboards/beamic/matrix.c:164-217 | without a pending sweep nothing changes and it returns false; otherwise it consumes the event, publishes the rows, and either resets the extremes after a histogram report or carries them over |
| SanderlingMatrix.SelectRow | keyboards/sanderling/matrix.c:21-24 | the decoder address `7 - row` is a valid 3-bit address |
| SanderlingMatrix.SelectRowInvolution | keyboards/sanderling/matrix.c:21-24 | the reversed numbering is its own inverse, and distinct rows select distinct decoder outputs |
| SanderlingMatrix.RowWordBits | keyboards/sanderling/matrix.c:35-41 | bit c of the row word is set iff c is a column and that column's pin reads low; no other bit is set |
| SanderlingMatrix.PressedIffLow | keyboards/sanderling/matrix.c:47-53 | in the freshly read matrix, key (r, c) is pressed iff column pin c reads low while decoder output `7 - r` is selected |
| SanderlingMatrix.ReadColsOnRow | keyboards/sanderling/matrix.c:26-45 | writes only `current_matrix[row]`, with the row word of the selected row's pin levels |
| SanderlingMatrix.Scan | keyboards/sanderling/matrix.c:47-59 | afterwards the matrix is the freshly read one, and the result is true iff it differs from the previous matrix |
| DeadKeys.OrBits | keyboards/beamic/deadkeys.py:12 | Python's bitwise or on non-negative integers sets exactly the bits set in either operand |
| DeadKeys.Pow2Bits | keyboards/beamic/deadkeys.py:12 | `1 << col` has exactly bit `col` set |
| DeadKeys.BitsDetermine | keyboards/beamic/deadkeys.py:12 | two non-negative integers with the same bits are equal |
| DeadKeys.DeadRowBound | keyboards/beamic/deadkeys.py:9-12 | each row's bitmap is below `2**ncols` |
| DeadKeys.DeadRowBits | keyboards/beamic/deadkeys.py:9-12 | bit col of a row's bitmap is set iff col < ncols and (row, col) is not a position of the layout |
| DeadKeys.DeadRowsAreDeadMap | keyboards/beamic/deadkeys.py:8-12 | the bitmap list has nrows entries, each below `2**ncols`, with exactly the unused positions set |
| DeadKeys.DeadMapUnique | keyboards/beamic/deadkeys.py:8-12 | that description fixes the list: any two lists that meet it are equal |
| DeadKeys.ComputeDead | keyboards/beamic/deadkeys.py:8-12 | the nested loops that or `1 << col` into `dead[row]` build exactly that list |
| DeadKeys.LexTotal | keyboards/beamic/deadkeys.py:6 | any two layout names are ordered one way or the other |
| DeadKeys.LexTrans | keyboards/beamic/deadkeys.py:6 | the name order is transitive |
| DeadKeys.LexAntisymmetric | keyboards/beamic/deadkeys.py:6 | names ordered both ways are equal |
| DeadKeys.FirstLayout | keyboards/beamic/deadkeys.py:6 | the chosen layout is one of the layouts |
| DeadKeys.FirstLayoutIsLeast | keyboards/beamic/deadkeys.py:6 | its name comes first in sorted order |
| DeadKeys.HexRoundTrip | keyboards/beamic/deadkeys.py:13 | `{x:x}` is non-empty lower-case hex without leading zeros, and reads back as x |
| DeadKeys.FormatRoundTrip | keyboards/beamic/deadkeys.py:13 | the `", "`-joined `0x` entries read back as the same list, in row order |
| DeadKeys.DeadKeysLine | keyboards/beamic/deadkeys.py:3-13 | with no layout the script fails; otherwise its line is the `0x`-hex join of the dead rows of the first layout in name order, and it reads back as exactly that layout's dead-key bitmap |

## Left out

- STM32 register programming is not modelled: `timcap_init`, the TIM3/4/5 setup, pin modes, clocks and NVIC (beamic/matrix.c 22-31 and 52-82). Capture flags, CCR values and pin levels are inputs to `Tim4Irq` and `ReadInputCaptures`, and the column pins are the `colHigh` array.
- ChibiOS events and ISR/task concurrency are not modelled. The broadcast sets the `eventPending` field, and `Scan` consumes it. The 100 ms timeout is the case where no event is pending. Interleavings inside the interrupt are out of scope.
- The drain reads of the capture registers (beamic/matrix.c 143-151) are left out. They only clear hardware state.
- `xprintf` output is not modelled:
  - the extremes and margin line of beamic/matrix.c 210 is not formatted;
  - `value_histogram` returns its line instead of printing it, and returns whether it reported. The source declares it `void` yet tests its result at matrix.c 209; the model takes the evident meaning, "a report was printed".
- Time: the system clock is a `now` parameter, and systime wrap-around is ignored.
- CAPTURE_FREQUENCY, from the board's mcuconf.h, is a parameter. The config.h, halconf.h, chconf.h and mcuconf.h headers are not part of this model.
- BEAM_ACTIVE_HIGH and BEAM_COL_CONFIG of the IBM F XT header are not used by the modelled code and are left out.
- HIST_BINS is commented out by default. The model's `enabled` flag stands for `#ifdef HIST_BINS`, and `bins` for its value.
- Sanderling drivers are not modelled:
  - `matrix_init_custom`, `sn74x138_*`, the select delay and `ATOMIC_BLOCK_FORCEON` are foreign drivers;
  - pin levels are an input indexed by decoder address and column;
  - MATRIX_ROW_SHIFTER is taken to be 1, the QMK default for a `matrix_row_t` of 32 bits.
- deadkeys.py I/O is not modelled: JSON parsing, stdin, and the trailing newline of `print`. A missing key is not modelled either. The layouts are a sequence with distinct names, and `sorted(...)[0]` on an empty dict is the `None` result.
- The threshold test of beamic/matrix.c 179-181 is commented out in the source and so is absent from the model: each row is computed as `0 & ~dead_keys[row]`, which the contracts state as 0.
- Histogram.Histogram.ValueHistogram: bins samples with the corrected `BinOf`, not with the `uint8_t`-truncated bin of histogram.c:24. The two differ only for samples 32768 to 65534. matrix.c never stores those: a capture is read at most one read window after the drain, and the window is below 32768 whenever the period passes its check; the fallbacks 0 and 65535 bin alike (`AsWrittenAgreesOnStoredSamples`). See Findings.
- Loop counters are unbounded integers, not `uint8_t`. Every bound in the source (at most 32 columns, 8 rows, 255 bins) keeps them in range.
- In beamic `Scan`, the column bit is written `Bit(w, col)`, a mask `1 << col`, rather than the shifted `col_mask` variable. `Bits.MaskStep` shows that the two agree.

## Findings

| source | as written | input that shows it | evidently intended | confidence | as-written member | corrected member |
|---|---|---|---|---|---|---|
| keyboards/beamic/histogram.c:24 | `uint8_t hist_val = *values >> 7` truncates the shifted sample to 8 bits before the clamp to HIST_BINS-1 | `value_histogram` called with 24 bins and a sample of 32768: it shifts to 256, truncates to 0 and is counted in bin 0. The defect is latent in value_histogram as a function of its argument: matrix.c never passes such a sample, since captures stay within one read window (below 32768) and the fallbacks 0 and 65535 bin correctly | the clamp puts every sample at or above `128*(HIST_BINS-1)` in the last bin, 23 | not executed | Histogram.BinOfAsWritten, Histogram.AsWrittenMisbins32768 | Histogram.BinOf, used by Histogram.Histogram.ValueHistogram |
