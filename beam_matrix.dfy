// The capacitive beam-spring matrix of keyboards/beamic/matrix.c: the TIM4
// interrupt that strobes one column per timer period and stores the
// discharge times captured on every row, and the scan that turns a finished
// sweep into matrix rows and calibration extremes.

module BeamMatrix {
  import opened Bits
  import Histogram

  /** What read_input_captures sees of one input-capture channel: whether
      the channel's capture flag is set, the captured counter value, and
      the level of the row pin when it is read. */
  datatype CaptureChannel = CaptureChannel(captured: bool, ccr: u16, pinHigh: bool)

  /** The raw value stored for a row. A channel that captured stores the
      time of the rising edge. One that did not stores an extreme: 0 when
      the line is still high (it never fell, so the key reads as 0 ticks),
      65535 when it is still low (a very long discharge). */
  function CaptureValue(ch: CaptureChannel): (v: u16)
    ensures ch.captured ==> v == ch.ccr
    ensures !ch.captured ==> (v == 0 || v == U16Max) && (v == 0 <==> ch.pinHigh)
  {
    if ch.captured then ch.ccr
    else if ch.pinHigh then 0
    else U16Max
  }

  /** Row `r`'s channel: rows 0..3 are on TIM3, rows 4..7 on TIM5, and
      each row uses capture channel `r mod 4` of its timer. */
  function RowChannel(tim3: seq<CaptureChannel>, tim5: seq<CaptureChannel>, r: nat): (ch: CaptureChannel)
    requires |tim3| == 4 && (r >= 4 ==> |tim5| == 4) && r < 8
    ensures ch == (if r < 4 then tim3 else tim5)[r % 4]
  {
    if r < 4 then tim3[r] else tim5[r - 4]
  }

  /** The column selected by an update event after column `c`. */
  function NextColumn(c: nat, cols: nat): (n: nat)
    requires c < cols
    ensures n < cols
    ensures n == (c + 1) % cols
  {
    if c + 1 >= cols then
      assert c + 1 == cols && cols % cols == 0;
      0
    else
      assert (c + 1) % cols == c + 1;
      c + 1
  }

  /** Number of sweep-complete broadcasts over `n` timer periods that start
      with column `c` the last one read: each period selects the next column
      and then reads it, broadcasting when that is the last column. */
  function Broadcasts(c: nat, n: nat, cols: nat): nat
    requires c < cols
    decreases n
  {
    if n == 0 then 0
    else
      var next := NextColumn(c, cols);
      (if next == cols - 1 then 1 else 0) + Broadcasts(next, n - 1, cols)
  }

  lemma {:induction false} NoBroadcastBeforeLastColumn(c: nat, n: nat, cols: nat)
    requires c + n < cols - 1
    ensures Broadcasts(c, n, cols) == 0
    decreases n
  {
    if n > 0 {
      NoBroadcastBeforeLastColumn(c + 1, n - 1, cols);
    }
  }

  lemma {:induction false} BroadcastAtLastColumn(c: nat, n: nat, cols: nat)
    requires c < cols - 1 && n >= cols - 1 - c
    ensures Broadcasts(c, n, cols) == 1 + Broadcasts(cols - 1, n - (cols - 1 - c), cols)
    decreases n
  {
    if c + 1 < cols - 1 {
      BroadcastAtLastColumn(c + 1, n - 1, cols);
    }
  }

  /** Whatever column the sweep stands at, the next `cols` timer periods
      wake the scan exactly once. */
  lemma OneBroadcastPerSweep(c: nat, cols: nat)
    requires c < cols
    ensures Broadcasts(c, cols, cols) == 1
  {
    if c == cols - 1 {
      if cols > 1 {
        BroadcastAtLastColumn(0, cols - 1, cols);
      }
    } else {
      BroadcastAtLastColumn(c, cols, cols);
      NoBroadcastBeforeLastColumn(0, c, cols);
    }
  }

  /** The dead-key words after `dead_keys[row] |= cal_keys[row]` on every row. */
  function MaskedDead(dead: seq<bv32>, cal: seq<bv32>): (m: seq<bv32>)
    requires |dead| == |cal|
  {
    seq(|dead|, r requires 0 <= r < |dead| => dead[r] | cal[r])
  }

  /** After masking, every calibration pad is a dead key, and a key that was
      neither stays live. */
  lemma OrMasksCalPads(dead: seq<bv32>, cal: seq<bv32>)
    requires |dead| == |cal|
    ensures forall r, c :: 0 <= r < |dead| && 0 <= c < MaxCols && Bit(cal[r], c) ==> Bit(MaskedDead(dead, cal)[r], c)
    ensures forall r, c :: 0 <= r < |dead| && 0 <= c < MaxCols && !Bit(dead[r], c) && !Bit(cal[r], c) ==>
      !Bit(MaskedDead(dead, cal)[r], c)
  {
    forall r, c | 0 <= r < |dead| && 0 <= c < MaxCols
      ensures Bit(cal[r], c) ==> Bit(MaskedDead(dead, cal)[r], c)
      ensures !Bit(dead[r], c) && !Bit(cal[r], c) ==> !Bit(MaskedDead(dead, cal)[r], c)
    {
      OrKeepsBits(dead[r], cal[r], Mask(c));
      OrAddsNoBits(dead[r], cal[r], Mask(c));
    }
  }

  /** Word by word: no calibration bit survives `cal & ~dead` once masked. */
  lemma CalPadsMaskedOut(dead: seq<bv32>, cal: seq<bv32>)
    requires |dead| == |cal|
    ensures forall r :: 0 <= r < |dead| ==> cal[r] & !MaskedDead(dead, cal)[r] == 0
  {
  }

  /** Cell (r, c) is visited before (row, col) by the row-major scan loops. */
  predicate Before(r: nat, c: nat, row: nat, col: nat)
  {
    r < row || (r == row && c < col)
  }

  /** The cells a calibration extreme is taken over: every cell, the dead
      pads that are not calibration pads (always low capacitance), and the
      calibration pads (always high capacitance). */
  datatype CellSet = AllCells | DeadPads | CalPads

  /** The four calibration statics of matrix_scan_custom. */
  datatype Extremes = Extremes(maxAny: u16, maxLow: u16, minHigh: u16, minAny: u16)

  /** Their initial values, restored after every histogram report. */
  const Reset: Extremes := Extremes(0, 0, U16Max, U16Max)

  /** One cell's update of the extremes. A dead pad that is also a
      calibration pad can only lower `minHigh`; any other dead pad can only
      raise `maxLow`; every cell updates `maxAny` and `minAny`. */
  function Calibrate(e: Extremes, val: u16, dead: bool, cal: bool): Extremes
  {
    var minHigh := if dead && cal && val < e.minHigh then val else e.minHigh;
    var maxLow := if dead && !cal && val > e.maxLow then val else e.maxLow;
    var maxAny := if val > e.maxAny then val else e.maxAny;
    var minAny := if val < e.minAny then val else e.minAny;
    Extremes(maxAny, maxLow, minHigh, minAny)
  }

  /** One cell's update keeps each extreme the maximum or minimum of its
      old value and, for the cells of its set, the sample. */
  lemma CalibrateBounds(e: Extremes, val: u16, dead: bool, cal: bool)
    ensures var r := Calibrate(e, val, dead, cal);
      && r.maxAny >= e.maxAny && r.maxAny >= val && (r.maxAny == e.maxAny || r.maxAny == val)
      && r.minAny <= e.minAny && r.minAny <= val && (r.minAny == e.minAny || r.minAny == val)
      && r.maxLow >= e.maxLow && (dead && !cal ==> r.maxLow >= val)
      && (r.maxLow == e.maxLow || (dead && !cal && r.maxLow == val))
      && r.minHigh <= e.minHigh && (dead && cal ==> r.minHigh <= val)
      && (r.minHigh == e.minHigh || (dead && cal && r.minHigh == val))
  {
  }

  /** The matrix driver's static state. */
  class BeamMatrix {
    const cols: nat
    const rows: nat
    /** beam_values[col][row]: the last raw capture of every cell. */
    const beamValues: array2<u16>
    const deadKeys: array<bv32>
    const calKeys: array<bv32>
    /** The level driven on each open-drain column pin; low selects it. */
    const colHigh: array<bool>
    const hist: Histogram.Histogram
    var currentColumn: nat
    /** The beam_source event has been broadcast and not yet waited for. */
    var eventPending: bool
    var extremes: Extremes

    ghost predicate Shape()
    {
      && 0 < cols <= MaxCols
      && (rows == 4 || rows == 8)
      && beamValues.Length0 == cols && beamValues.Length1 == rows
      && deadKeys.Length == rows && calKeys.Length == rows
      && colHigh.Length == cols
    }

    /** The driver's arrays, and the histogram's bins, are separate objects. */
    ghost predicate Separate()
      reads this, hist
    {
      && deadKeys != calKeys
      && colHigh as object != deadKeys && colHigh as object != calKeys && colHigh as object != beamValues
      && beamValues as object != deadKeys && beamValues as object != calKeys
      && hist.valBins as object != beamValues && hist.valBins as object != deadKeys
      && hist.valBins as object != calKeys && hist.valBins as object != colHigh
    }

    ghost predicate Valid()
      reads this, hist
    {
      Shape() && Separate() && currentColumn < cols && hist.Valid()
    }

    /** The static initialisers: `dead` and `cal` are BEAM_DEAD_KEYS and
        BEAM_CAL_KEYS, beam_values starts zeroed, and the column counter
        starts at the last column so that the first update selects column 0. */
    constructor (cols: nat, rows: nat, dead: seq<bv32>, cal: seq<bv32>, hist: Histogram.Histogram)
      requires 0 < cols <= MaxCols && (rows == 4 || rows == 8)
      requires |dead| == rows && |cal| == rows && hist.Valid()
      ensures Valid()
      ensures fresh(beamValues) && fresh(deadKeys) && fresh(calKeys) && fresh(colHigh)
      ensures this.cols == cols && this.rows == rows && this.hist == hist
      ensures deadKeys[..] == dead && calKeys[..] == cal
      ensures forall c, r :: 0 <= c < cols && 0 <= r < rows ==> beamValues[c, r] == 0
      ensures forall c :: 0 <= c < cols ==> colHigh[c]
      ensures currentColumn == cols - 1 && !eventPending
      ensures extremes == Reset
    {
      this.cols := cols;
      this.rows := rows;
      this.hist := hist;
      beamValues := new u16[cols, rows]((_, _) => 0);
      deadKeys := new bv32[rows](i requires 0 <= i < rows => dead[i]);
      calKeys := new bv32[rows](i requires 0 <= i < rows => cal[i]);
      colHigh := new bool[cols](_ => true);
      currentColumn := cols - 1;
      eventPending := false;
      extremes := Reset;
    }

    /** No column other than the current one is driven low. */
    ghost predicate SelectedOnly()
      reads this, colHigh
      requires Shape()
    {
      forall c :: 0 <= c < cols && !colHigh[c] ==> c == currentColumn
    }

    /** matrix_init_custom: release every column, mark every cell unpressed
        and mask the calibration pads out as dead keys. */
    method Init()
      requires Valid()
      modifies colHigh, beamValues, deadKeys
      ensures Valid()
      ensures forall c :: 0 <= c < cols ==> colHigh[c]
      ensures forall c, r :: 0 <= c < cols && 0 <= r < rows ==> beamValues[c, r] == U16Max
      ensures deadKeys[..] == MaskedDead(old(deadKeys[..]), calKeys[..])
      ensures SelectedOnly()
    {
      ghost var dead0 := deadKeys[..];
      var x := 0;
      while x < cols
        invariant 0 <= x <= cols
        invariant forall c :: 0 <= c < x ==> colHigh[c]
        modifies colHigh
      {
        colHigh[x] := true;
        x := x + 1;
      }
      var row := 0;
      while row < rows
        modifies beamValues, deadKeys
        invariant 0 <= row <= rows
        invariant forall c, r :: 0 <= c < cols && 0 <= r < row ==> beamValues[c, r] == U16Max
        invariant forall r :: 0 <= r < row ==> deadKeys[r] == MaskedDead(dead0, calKeys[..])[r]
        invariant forall r :: row <= r < rows ==> deadKeys[r] == dead0[r]
      {
        var col := 0;
        while col < cols
          modifies beamValues
          invariant 0 <= col <= cols
          invariant forall c, r :: 0 <= c < cols && 0 <= r < row ==> beamValues[c, r] == U16Max
          invariant forall c :: 0 <= c < col ==> beamValues[c, row] == U16Max
        {
          beamValues[col, row] := U16Max;
          col := col + 1;
        }
        deadKeys[row] := deadKeys[row] | calKeys[row];
        row := row + 1;
      }
    }

    /** read_input_captures: store the four channels of one timer into rows
        `base`..`base + 3` of column `col`. */
    method ReadInputCaptures(col: nat, base: nat, timer: seq<CaptureChannel>)
      requires col < beamValues.Length0 && base + 4 <= beamValues.Length1 && |timer| == 4
      modifies beamValues
      ensures forall c, r :: 0 <= c < beamValues.Length0 && 0 <= r < beamValues.Length1 ==>
        beamValues[c, r] == if c == col && base <= r < base + 4 then CaptureValue(timer[r - base])
                            else old(beamValues[c, r])
    {
      if timer[0].captured {
        beamValues[col, base] := timer[0].ccr;
      } else {
        beamValues[col, base] := if timer[0].pinHigh then 0 else U16Max;
      }
      if timer[1].captured {
        beamValues[col, base + 1] := timer[1].ccr;
      } else {
        beamValues[col, base + 1] := if timer[1].pinHigh then 0 else U16Max;
      }
      if timer[2].captured {
        beamValues[col, base + 2] := timer[2].ccr;
      } else {
        beamValues[col, base + 2] := if timer[2].pinHigh then 0 else U16Max;
      }
      if timer[3].captured {
        beamValues[col, base + 3] := timer[3].ccr;
      } else {
        beamValues[col, base + 3] := if timer[3].pinHigh then 0 else U16Max;
      }
    }

    /** The TIM4 interrupt. `cc1` is the compare event at the end of the read
        window, `uif` the update event at the end of the period; `tim3` and
        `tim5` are the capture channels of the two capture timers. Returns
        whether the sweep-complete event was broadcast. */
    method Tim4Irq(cc1: bool, uif: bool, tim3: seq<CaptureChannel>, tim5: seq<CaptureChannel>)
      returns (broadcast: bool)
      requires Valid() && |tim3| == 4 && (rows == 8 ==> |tim5| == 4)
      modifies this`currentColumn, this`eventPending, colHigh, beamValues
      ensures Valid()
      ensures broadcast == (cc1 && old(currentColumn) == cols - 1)
      ensures eventPending == (old(eventPending) || broadcast)
      ensures currentColumn == if uif then NextColumn(old(currentColumn), cols) else old(currentColumn)
      ensures forall c :: 0 <= c < cols ==>
        colHigh[c] == if uif && c == currentColumn then false
                      else if cc1 && c == old(currentColumn) then true
                      else old(colHigh[c])
      ensures forall c, r :: 0 <= c < cols && 0 <= r < rows ==>
        beamValues[c, r] == if cc1 && c == old(currentColumn) then CaptureValue(RowChannel(tim3, tim5, r))
                            else old(beamValues[c, r])
      ensures old(SelectedOnly()) && (cc1 || !uif || old(colHigh[currentColumn])) ==> SelectedOnly()
    {
      broadcast := false;
      if cc1 {
        colHigh[currentColumn] := true;
        ReadInputCaptures(currentColumn, 0, tim3);
        if rows == 8 {
          ReadInputCaptures(currentColumn, 4, tim5);
        }
        if currentColumn == cols - 1 {
          eventPending := true;
          broadcast := true;
        }
      }
      if uif {
        currentColumn := currentColumn + 1;
        if currentColumn >= cols {
          currentColumn := 0;
        }
        colHigh[currentColumn] := false;
      }
    }

    /** Cell (r, c) belongs to the set `k`. */
    ghost predicate InSet(k: CellSet, r: nat, c: nat)
      reads deadKeys, calKeys
      requires Shape() && r < rows && c < cols
    {
      match k
      case AllCells => true
      case DeadPads => Bit(deadKeys[r], c) && !Bit(calKeys[r], c)
      case CalPads => Bit(deadKeys[r], c) && Bit(calKeys[r], c)
    }

    /** The extremes after the row-major scan loops have visited every
        cell before (row, col), starting from `start`. */
    ghost function RunExtremes(start: Extremes, row: nat, col: nat): Extremes
      reads beamValues, deadKeys, calKeys
      requires Shape() && col <= cols && (row < rows || (row == rows && col == 0))
      decreases row, col
    {
      if col == 0 then (if row == 0 then start else RunExtremes(start, row - 1, cols))
      else
        Calibrate(RunExtremes(start, row, col - 1), beamValues[col - 1, row],
                  Bit(deadKeys[row], col - 1), Bit(calKeys[row], col - 1))
    }

    /** `m` is an upper bound of `start` and of the cells of `k` visited
        before (row, col), and is one of them. */
    ghost predicate IsRunningMax(m: int, start: int, k: CellSet, row: nat, col: nat)
      reads beamValues, deadKeys, calKeys
      requires Shape()
    {
      && start <= m
      && (forall r, c :: 0 <= r < rows && 0 <= c < cols && Before(r, c, row, col) && InSet(k, r, c) ==>
            beamValues[c, r] <= m)
      && (m == start || exists r, c ::
            0 <= r < rows && 0 <= c < cols && Before(r, c, row, col) && InSet(k, r, c) && beamValues[c, r] == m)
    }

    /** `m` is a lower bound of `start` and of the same cells, and is one of them. */
    ghost predicate IsRunningMin(m: int, start: int, k: CellSet, row: nat, col: nat)
      reads beamValues, deadKeys, calKeys
      requires Shape()
    {
      && m <= start
      && (forall r, c :: 0 <= r < rows && 0 <= c < cols && Before(r, c, row, col) && InSet(k, r, c) ==>
            m <= beamValues[c, r])
      && (m == start || exists r, c ::
            0 <= r < rows && 0 <= c < cols && Before(r, c, row, col) && InSet(k, r, c) && beamValues[c, r] == m)
    }

    /** `maxAny` is the largest of its start and every cell visited so far. */
    lemma {:induction false} MaxAnyIsMax(start: Extremes, row: nat, col: nat)
      requires Shape() && col <= cols && (row < rows || (row == rows && col == 0))
      ensures IsRunningMax(RunExtremes(start, row, col).maxAny, start.maxAny, AllCells, row, col)
      decreases row, col
    {
      if col == 0 {
        if row > 0 {
          MaxAnyIsMax(start, row - 1, cols);
          assert forall r, c :: 0 <= c < cols ==> (Before(r, c, row - 1, cols) <==> Before(r, c, row, 0));
        }
      } else {
        MaxAnyIsMax(start, row, col - 1);
        assert forall r, c :: Before(r, c, row, col) <==> Before(r, c, row, col - 1) || (r == row && c == col - 1);
      }
    }

    /** `maxLow` is the largest of its start and the plain dead pads visited
        so far. */
    lemma {:induction false} MaxLowIsMax(start: Extremes, row: nat, col: nat)
      requires Shape() && col <= cols && (row < rows || (row == rows && col == 0))
      ensures IsRunningMax(RunExtremes(start, row, col).maxLow, start.maxLow, DeadPads, row, col)
      decreases row, col
    {
      if col == 0 {
        if row > 0 {
          MaxLowIsMax(start, row - 1, cols);
          assert forall r, c :: 0 <= c < cols ==> (Before(r, c, row - 1, cols) <==> Before(r, c, row, 0));
        }
      } else {
        MaxLowIsMax(start, row, col - 1);
        assert forall r, c :: Before(r, c, row, col) <==> Before(r, c, row, col - 1) || (r == row && c == col - 1);
      }
    }

    /** `minHigh` is the smallest of its start and the calibration pads
        visited so far. */
    lemma {:induction false} MinHighIsMin(start: Extremes, row: nat, col: nat)
      requires Shape() && col <= cols && (row < rows || (row == rows && col == 0))
      ensures IsRunningMin(RunExtremes(start, row, col).minHigh, start.minHigh, CalPads, row, col)
      decreases row, col
    {
      if col == 0 {
        if row > 0 {
          MinHighIsMin(start, row - 1, cols);
          assert forall r, c :: 0 <= c < cols ==> (Before(r, c, row - 1, cols) <==> Before(r, c, row, 0));
        }
      } else {
        MinHighIsMin(start, row, col - 1);
        assert forall r, c :: Before(r, c, row, col) <==> Before(r, c, row, col - 1) || (r == row && c == col - 1);
      }
    }

    /** `minAny` is the smallest of its start and every cell visited so far. */
    lemma {:induction false} MinAnyIsMin(start: Extremes, row: nat, col: nat)
      requires Shape() && col <= cols && (row < rows || (row == rows && col == 0))
      ensures IsRunningMin(RunExtremes(start, row, col).minAny, start.minAny, AllCells, row, col)
      decreases row, col
    {
      if col == 0 {
        if row > 0 {
          MinAnyIsMin(start, row - 1, cols);
          assert forall r, c :: 0 <= c < cols ==> (Before(r, c, row - 1, cols) <==> Before(r, c, row, 0));
        }
      } else {
        MinAnyIsMin(start, row, col - 1);
        assert forall r, c :: Before(r, c, row, col) <==> Before(r, c, row, col - 1) || (r == row && c == col - 1);
      }
    }

    /** A board without calibration pads (an all-zero BEAM_CAL_KEYS) never
        lowers `minHigh`: it keeps its start value. */
    lemma NoCalPadsKeepMinHigh(start: Extremes, row: nat, col: nat)
      requires Shape() && col <= cols && (row < rows || (row == rows && col == 0))
      requires forall r :: 0 <= r < rows ==> calKeys[r] == 0
      ensures RunExtremes(start, row, col).minHigh == start.minHigh
    {
      MinHighIsMin(start, row, col);
      forall r, c | 0 <= r < rows && 0 <= c < cols
        ensures !InSet(CalPads, r, c)
      {
        assert calKeys[r] == 0;
      }
    }

    /** The histogram that Scan fills from beam_values counts every one of
        the MATRIX_ROWS * MATRIX_COLS samples once (modulo 256). */
    lemma ScanHistogramTotal()
      requires Shape() && hist.bins > 0
      ensures Histogram.Sum(Histogram.BinCounts(Flatten(beamValues, 0), hist.bins)) % 256 == (cols * rows) % 256
    {
      Histogram.BinTotals(Flatten(beamValues, 0), hist.bins);
      CellsIsProduct(cols, rows);
    }

    /** The row loop of matrix_scan_custom: every row is read as unpressed
        (the threshold test is commented out) with its dead keys masked and
        is written only when it differs, and the calibration extremes are
        folded over every cell in row-major order. */
    method ScanRows(currentMatrix: array<bv32>) returns (changed: bool)
      requires Valid() && currentMatrix.Length == rows
      requires currentMatrix != deadKeys && currentMatrix != calKeys
      requires currentMatrix as object != hist.valBins && currentMatrix as object != beamValues
      modifies this`extremes, currentMatrix
      ensures Valid()
      ensures forall r :: 0 <= r < rows ==> currentMatrix[r] == 0
      ensures changed <==> exists r :: 0 <= r < rows && old(currentMatrix[r]) != 0
      ensures extremes == RunExtremes(old(extremes), rows, 0)
    {
      changed := false;
      // The calibration statics, held in a local while the loops run.
      var e := extremes;
      var row := 0;
      while row < rows
        modifies currentMatrix
        invariant 0 <= row <= rows
        invariant e == RunExtremes(extremes, row, 0)
        invariant forall r :: 0 <= r < row ==> currentMatrix[r] == 0
        invariant forall r :: row <= r < rows ==> currentMatrix[r] == old(currentMatrix[r])
        invariant changed <==> exists r :: 0 <= r < row && old(currentMatrix[r]) != 0
      {
        var newRow: bv32 := 0;
        var rowDeadKeys := deadKeys[row];
        var col := 0;
        while col < cols
          modifies {}
          invariant 0 <= col <= cols
          invariant newRow == 0
          invariant e == RunExtremes(extremes, row, col)
        {
          var val := beamValues[col, row];
          e := Calibrate(e, val, Bit(rowDeadKeys, col), Bit(calKeys[row], col));
          col := col + 1;
        }
        newRow := newRow & !deadKeys[row];
        if newRow != currentMatrix[row] {
          changed := true;
          currentMatrix[row] := newRow;
        }
        row := row + 1;
      }
      extremes := e;
    }

    /** matrix_scan_custom. A missing sweep event is the 100 ms timeout and
        reports no change. Otherwise the rows are scanned, and the
        calibration extremes restart whenever the histogram reports at
        time `now`. */
    method Scan(currentMatrix: array<bv32>, now: int) returns (changed: bool)
      requires Valid() && currentMatrix.Length == rows
      requires currentMatrix != deadKeys && currentMatrix != calKeys
      requires currentMatrix as object != hist.valBins && currentMatrix as object != beamValues
      modifies this`eventPending, this`extremes, currentMatrix, hist, hist.valBins
      ensures Valid()
      ensures !old(eventPending) ==>
        && !changed && currentMatrix[..] == old(currentMatrix[..]) && eventPending == old(eventPending)
        && extremes == old(extremes)
        && hist.lastReport == old(hist.lastReport) && hist.valBins[..] == old(hist.valBins[..])
      ensures old(eventPending) ==> !eventPending
      ensures old(eventPending) ==> forall r :: 0 <= r < rows ==> currentMatrix[r] == 0
      ensures old(eventPending) ==> (changed <==> exists r :: 0 <= r < rows && old(currentMatrix[r]) != 0)
      ensures old(eventPending) && old(hist.ReportDue(now)) ==>
        && extremes == Reset
        && hist.lastReport == now
        && hist.valBins[..] == Histogram.BinCounts(Flatten(beamValues, 0), hist.bins)
      ensures old(eventPending) && !old(hist.ReportDue(now)) ==>
        && extremes == RunExtremes(old(extremes), rows, 0)
        && hist.lastReport == old(hist.lastReport) && hist.valBins[..] == old(hist.valBins[..])
    {
      if !eventPending {
        return false;
      }
      eventPending := false;
      changed := ScanRows(currentMatrix);
      var reported, _ := hist.ValueHistogram(Flatten(beamValues, 0), now);
      if reported {
        extremes := Reset;
      }
    }
  }

  /** The number of cells in `k` columns of `n` rows, counted column by
      column. */
  function Cells(k: nat, n: nat): nat
  {
    if k == 0 then 0 else n + Cells(k - 1, n)
  }

  lemma {:induction false} CellsIsProduct(k: nat, n: nat)
    ensures Cells(k, n) == k * n
  {
    if k > 0 {
      CellsIsProduct(k - 1, n);
      assert k * n == (k - 1) * n + n;
    }
  }

  /** The cells of `g` from column `c` on, in memory order: column by column,
      rows within a column. This is the order in which value_histogram's
      `values++` walks `beam_values[col][row]`. */
  function Flatten(g: array2<u16>, c: nat): (s: seq<u16>)
    reads g
    requires c <= g.Length0
    ensures |s| == Cells(g.Length0 - c, g.Length1)
    decreases g.Length0 - c
  {
    if c == g.Length0 then []
    else
      assert Cells(g.Length0 - c, g.Length1) == g.Length1 + Cells(g.Length0 - (c + 1), g.Length1);
      seq(g.Length1, r requires 0 <= r < g.Length1 reads g => g[c, r]) + Flatten(g, c + 1)
  }

  /** Cell (cc, r) sits at offset `cc * rows + r` of the memory that starts
      at column `c`, counted from there. */
  lemma {:induction false} FlattenCell(g: array2<u16>, c: nat, cc: nat, r: nat)
    requires c <= cc < g.Length0 && r < g.Length1
    ensures Cells(cc - c, g.Length1) + r < |Flatten(g, c)|
    ensures Flatten(g, c)[Cells(cc - c, g.Length1) + r] == g[cc, r]
    decreases cc - c
  {
    if cc > c {
      FlattenCell(g, c + 1, cc, r);
      assert Cells(cc - c, g.Length1) == g.Length1 + Cells(cc - (c + 1), g.Length1);
    }
  }
}
