// The tick arithmetic of the three beam_config.h headers and the build-time
// checks that matrix.c places on it.

module BeamConfig {

  /** The constants in which the three beam_config.h headers differ:
      BEAM_SCAN_RATE (whole-matrix scans per second) and the denominator of
      the BEAM_THRESHOLD fraction (3/32 or 3/16 of a 10 kHz tick count). */
  datatype Board = Board(scanRate: nat, thresholdDen: nat)

  /** keyboards/beamic/beam_config.h */
  const Generic: Board := Board(500, 32)

  /** keyboards/beamic/ibm327x_75key/beam_config.h */
  const Ibm327x: Board := Board(500, 16)

  /** keyboards/beamic/ibm_f_xt/beam_config.h */
  const IbmFXt: Board := Board(1000, 32)

  predicate WellFormed(b: Board)
  {
    b.scanRate > 0 && b.thresholdDen > 0
  }

  /** BEAM_COL_PERIOD: ticks spent on one column, with C's truncating
      division (all operands are non-negative, so Dafny's `/` agrees). */
  function ColPeriod(b: Board, captureFrequency: nat, cols: nat): nat
    requires WellFormed(b) && cols > 0
  {
    captureFrequency / b.scanRate / cols
  }

  /** BEAM_COL_WINDOW: ticks before the column is released and read. */
  function ColWindow(b: Board, captureFrequency: nat, cols: nat): nat
    requires WellFormed(b) && cols > 0
  {
    ColPeriod(b, captureFrequency, cols) / 2
  }

  /** BEAM_THRESHOLD: 3/den of the number of timer ticks in 100 us. */
  function Threshold(b: Board, captureFrequency: nat): nat
    requires WellFormed(b)
  {
    captureFrequency / 10000 * 3 / b.thresholdDen
  }

  /** The two `#error` checks of matrix.c: the threshold must fit twice in
      the read window, and the period must fit the 16-bit capture counter. */
  predicate Builds(b: Board, captureFrequency: nat, cols: nat)
    requires WellFormed(b) && cols > 0
  {
    && Threshold(b, captureFrequency) <= ColWindow(b, captureFrequency, cols) / 2
    && ColPeriod(b, captureFrequency, cols) < 65535
  }

  // ---------------------------------------------------------------------
  // Arithmetic helpers

  lemma MulLe(a: nat, b: nat, k: nat)
    requires a <= b
    ensures a * k <= b * k
  {
  }

  /** Truncating division rounds down: `(q / c) * c <= q`. */
  lemma DivMulBound(q: nat, c: nat)
    requires c > 0
    ensures (q / c) * c <= q
  {
    assert q == (q / c) * c + q % c;
  }

  /** `x * c <= q` bounds `x` by the truncated quotient. */
  lemma DivLowerBound(x: nat, q: nat, c: nat)
    requires c > 0 && x * c <= q
    ensures x <= q / c
  {
    assert q == (q / c) * c + q % c;
    if x > q / c {
      MulLe(q / c + 1, x, c);
    }
  }

  // ---------------------------------------------------------------------
  // Properties of the formulas

  /** The period is the truncated share of one column in one scan: a whole
      scan of `cols` periods never exceeds one scan-rate interval, and one
      more tick per column would. */
  lemma {:induction false} PeriodTruncates(b: Board, f: nat, cols: nat)
    requires WellFormed(b) && cols > 0
    ensures ColPeriod(b, f, cols) * cols * b.scanRate <= f
    ensures f < (ColPeriod(b, f, cols) + 1) * cols * b.scanRate
  {
    var s := b.scanRate;
    var q := f / s;
    var p := q / cols;
    assert f == q * s + f % s;
    assert q == p * cols + q % cols;
    MulLe(p * cols, q, s);
    MulLe(q + 1, (p + 1) * cols, s);
  }

  /** The window is half the period, rounded down. */
  lemma WindowHalvesPeriod(b: Board, f: nat, cols: nat)
    requires WellFormed(b) && cols > 0
    ensures 2 * ColWindow(b, f, cols) <= ColPeriod(b, f, cols) <= 2 * ColWindow(b, f, cols) + 1
    ensures ColWindow(b, f, cols) <= ColPeriod(b, f, cols)
  {
  }

  /** More columns share the same scan interval, so each gets fewer ticks. */
  lemma {:induction false} PeriodShrinksWithColumns(b: Board, f: nat, c1: nat, c2: nat)
    requires WellFormed(b) && 0 < c1 <= c2
    ensures ColPeriod(b, f, c2) <= ColPeriod(b, f, c1)
  {
    var q := f / b.scanRate;
    var x := q / c2;
    DivMulBound(q, c2);
    MulLe(c1, c2, x);
    assert x * c1 == c1 * x && x * c2 == c2 * x;
    DivLowerBound(x, q, c1);
  }

  /** Doubling the scan rate (ibm_f_xt) never lengthens the period. */
  lemma {:induction false} FasterScanShortensPeriod(f: nat, cols: nat)
    requires cols > 0
    ensures ColPeriod(IbmFXt, f, cols) <= ColPeriod(Generic, f, cols)
  {
    var q1 := f / 500;
    var q2 := f / 1000;
    assert q2 <= q1;
    var x := q2 / cols;
    assert q2 == x * cols + q2 % cols;
    DivLowerBound(x, q1, cols);
  }

  /** The threshold depends on the clock and its fraction only: boards with
      the same fraction share it whatever their scan rate. */
  lemma ThresholdIgnoresScanRate(b1: Board, b2: Board, f: nat)
    requires WellFormed(b1) && WellFormed(b2) && b1.thresholdDen == b2.thresholdDen
    ensures Threshold(b1, f) == Threshold(b2, f)
  {
  }

  /** The 3/16 threshold of ibm327x_75key lies between once and twice (plus
      rounding) the 3/32 threshold of the other boards. */
  lemma SixteenthsThreshold(f: nat)
    ensures Threshold(Generic, f) <= Threshold(Ibm327x, f) <= 2 * Threshold(Generic, f) + 1
    ensures Threshold(IbmFXt, f) == Threshold(Generic, f)
  {
  }

  /** A configuration that builds has a threshold below 128 * 128 ticks, so
      the histogram's `uint8_t` threshold bin `BEAM_THRESHOLD >> 7` is exact. */
  lemma ThresholdBinFitsByte(b: Board, f: nat, cols: nat)
    requires WellFormed(b) && cols > 0 && Builds(b, f, cols)
    ensures Threshold(b, f) / 128 < 128
  {
  }

  /** The clock the histogram comment works with (168 MHz, 20 columns)
      passes both checks on ibm327x_75key ... */
  lemma Ibm327xBuildsAt168MHz()
    ensures ColPeriod(Ibm327x, 168_000_000, 20) == 16800
    ensures Threshold(Ibm327x, 168_000_000) == 3150
    ensures Builds(Ibm327x, 168_000_000, 20)
  {
  }

  /** ... while 32 columns at the same clock leave too short a window for
      its 3/16 threshold, and the build stops. */
  lemma Ibm327xRefusedAt32Columns()
    ensures !Builds(Ibm327x, 168_000_000, 32)
  {
  }

  // ---------------------------------------------------------------------
  // Dead and calibration bitmaps

  /** BEAM_DEAD_KEYS of ibm327x_75key (one word per row). */
  const Ibm327xDeadKeys: seq<bv32> := [0x20004, 0x20000, 0, 0x10008]

  /** BEAM_CAL_KEYS of ibm327x_75key. */
  const Ibm327xCalKeys: seq<bv32> := [0, 0, 0, 0x10008]

  /** BEAM_DEAD_KEYS of ibm_f_xt. */
  const IbmFXtDeadKeys: seq<bv32> := [0x0, 0xb03, 0x200, 0x83, 0x100, 0x0, 0x0, 0x881]

  /** BEAM_CAL_KEYS of ibm_f_xt: no calibration pads. */
  const IbmFXtCalKeys: seq<bv32> := [0, 0, 0, 0, 0, 0, 0, 0]

  /** ibm327x_75key has four rows, and its calibration pads are already
      dead, so the initialising `dead_keys[row] |= cal_keys[row]` changes
      nothing. */
  lemma Ibm327xCalInsideDead()
    ensures |Ibm327xDeadKeys| == |Ibm327xCalKeys| == 4
    ensures forall r :: 0 <= r < 4 ==> Ibm327xCalKeys[r] & !Ibm327xDeadKeys[r] == 0
    ensures forall r :: 0 <= r < 4 ==> Ibm327xDeadKeys[r] | Ibm327xCalKeys[r] == Ibm327xDeadKeys[r]
  {
  }

  /** ibm_f_xt has eight rows and no calibration pad at all. */
  lemma IbmFXtHasNoCalPads()
    ensures |IbmFXtDeadKeys| == |IbmFXtCalKeys| == 8
    ensures forall r :: 0 <= r < 8 ==> IbmFXtCalKeys[r] == 0
    ensures forall r :: 0 <= r < 8 ==> IbmFXtDeadKeys[r] | IbmFXtCalKeys[r] == IbmFXtDeadKeys[r]
  {
  }
}
