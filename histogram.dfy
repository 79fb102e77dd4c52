// The calibration histogram of keyboards/beamic/histogram.c: a rate-limited
// report that bins every raw sample of a sweep and renders one glyph per bin.

module Histogram {
  import opened Bits

  /** HIST_SHIFT: a bin spans 2^7 = 128 ticks. */
  const BinWidth: nat := 128

  /** TIME_MS2I(250): the least time between two reports, in milliseconds. */
  const ReportIntervalMs: int := 250

  // ---------------------------------------------------------------------
  // Binning

  /** The bin of a sample: `v >> 7`, clamped to the last bin. Bin `b` holds
      the 128 values from `128 * b`; the last bin also holds everything
      above it. */
  function BinOf(v: u16, nbins: nat): (b: nat)
    requires nbins > 0
    ensures b < nbins
    ensures b * BinWidth <= v
    ensures b < nbins - 1 ==> v < (b + 1) * BinWidth
  {
    var h := v / BinWidth;
    if h >= nbins then nbins - 1 else h
  }

  /** The bin as histogram.c computes it: `v >> 7` is stored in a `uint8_t`
      (so it wraps at 256) before the clamp is applied. */
  function BinOfAsWritten(v: u16, nbins: nat): (b: nat)
    requires nbins > 0
    ensures b < nbins
  {
    var h := (v / BinWidth) % 256;
    if h >= nbins then nbins - 1 else h
  }

  /** Larger samples never land in a lower bin. */
  lemma BinOfMonotone(v1: u16, v2: u16, nbins: nat)
    requires nbins > 0 && v1 <= v2
    ensures BinOf(v1, nbins) <= BinOf(v2, nbins)
  {
  }

  /** Below 32768 the `uint8_t` store loses nothing and both agree. */
  lemma AsWrittenAgreesBelow32768(v: u16, nbins: nat)
    requires nbins > 0 && v < 32768
    ensures BinOfAsWritten(v, nbins) == BinOf(v, nbins)
  {
  }

  /** The samples matrix.c stores (a capture, at most one read window of
      ticks and so below 32768, or one of the fallbacks 0 and 65535) land in
      the same bin either way. */
  lemma AsWrittenAgreesOnStoredSamples(v: u16, nbins: nat)
    requires 0 < nbins < 256 && (v < 32768 || v == U16Max)
    ensures BinOfAsWritten(v, nbins) == BinOf(v, nbins)
  {
    if v == U16Max {
      assert v / BinWidth == 511 && 511 % 256 == 255;
    }
  }

  /** From 32768 on the stored `v >> 7` wraps: with the 24 bins suggested in
      histogram.c, a sample of 32768 ticks is counted in the first bin
      instead of the last one. */
  lemma AsWrittenMisbins32768()
    ensures BinOfAsWritten(32768, 24) == 0
    ensures BinOf(32768, 24) == 23
  {
  }

  // ---------------------------------------------------------------------
  // Counting

  /** How many samples of `s` fall into bin `b`. */
  function CountBin(s: seq<u16>, b: nat, nbins: nat): nat
    requires nbins > 0
  {
    if |s| == 0 then 0
    else CountBin(s[..|s| - 1], b, nbins) + (if BinOf(s[|s| - 1], nbins) == b then 1 else 0)
  }

  /** The exact count of every bin. */
  function Counts(s: seq<u16>, nbins: nat): (r: seq<nat>)
    requires nbins > 0
  {
    seq(nbins, b requires 0 <= b < nbins => CountBin(s, b, nbins))
  }

  /** Each count reduced to a `uint8_t`. */
  function Wrapped(xs: seq<int>): (r: seq<u8>)
  {
    seq(|xs|, i requires 0 <= i < |xs| => xs[i] % 256)
  }

  /** Incrementing a count and then wrapping it is incrementing the wrapped
      count in `uint8_t` arithmetic. */
  lemma WrappedBump(xs: seq<int>, k: nat)
    requires k < |xs|
    ensures Wrapped(xs[k := xs[k] + 1]) == Wrapped(xs)[k := (Wrapped(xs)[k] as int + 1) % 256]
  {
  }

  /** The contents of `val_bins` after a report over `s`. */
  function BinCounts(s: seq<u16>, nbins: nat): seq<u8>
    requires nbins > 0
  {
    Wrapped(Counts(s, nbins))
  }

  /** One more sample adds one, modulo 256, to its own bin's `uint8_t`
      count and to no other. */
  lemma BinCountsStep(s: seq<u16>, x: u16, nbins: nat)
    requires nbins > 0
    ensures BinCounts(s + [x], nbins)
         == BinCounts(s, nbins)[BinOf(x, nbins) := (BinCounts(s, nbins)[BinOf(x, nbins)] as int + 1) % 256]
  {
    CountsStep(s, x, nbins);
    WrappedBump(Counts(s, nbins), BinOf(x, nbins));
  }

  function Sum(xs: seq<int>): int
  {
    if |xs| == 0 then 0 else xs[0] + Sum(xs[1..])
  }

  lemma {:induction false} SumZeros(n: nat)
    ensures Sum(seq(n, _ => 0)) == 0
  {
    if n > 0 {
      assert seq(n, _ => 0)[1..] == seq(n - 1, _ => 0);
      SumZeros(n - 1);
    }
  }

  /** Incrementing one entry increments the sum by one. */
  lemma {:induction false} SumBump(xs: seq<int>, k: nat)
    requires k < |xs|
    ensures Sum(xs[k := xs[k] + 1]) == Sum(xs) + 1
  {
    if k > 0 {
      assert xs[k := xs[k] + 1][1..] == xs[1..][k - 1 := xs[k] + 1];
      SumBump(xs[1..], k - 1);
    } else {
      assert xs[k := xs[k] + 1][1..] == xs[1..];
    }
  }

  /** One more sample increments exactly the count of its own bin. */
  lemma CountsStep(s: seq<u16>, x: u16, nbins: nat)
    requires nbins > 0
    ensures Counts(s + [x], nbins)
         == Counts(s, nbins)[BinOf(x, nbins) := Counts(s, nbins)[BinOf(x, nbins)] + 1]
  {
    assert (s + [x])[..|s|] == s;
  }

  /** Every sample is counted in exactly one bin: the counts add up to the
      number of samples. */
  lemma {:induction false} CountsTotal(s: seq<u16>, nbins: nat)
    requires nbins > 0
    ensures Sum(Counts(s, nbins)) == |s|
  {
    if |s| == 0 {
      assert Counts(s, nbins) == seq(nbins, _ => 0);
      SumZeros(nbins);
    } else {
      var init, x := s[..|s| - 1], s[|s| - 1];
      assert s == init + [x];
      CountsTotal(init, nbins);
      CountsStep(init, x, nbins);
      SumBump(Counts(init, nbins), BinOf(x, nbins));
    }
  }

  /** Reducing each entry modulo 256 keeps the sum modulo 256. */
  lemma {:induction false} SumWrapped(xs: seq<int>)
    ensures Sum(Wrapped(xs)) % 256 == Sum(xs) % 256
  {
    if |xs| > 0 {
      assert Wrapped(xs)[1..] == Wrapped(xs[1..]);
      SumWrapped(xs[1..]);
      ModAdd(xs[0], Sum(xs[1..]), xs[0] % 256, Sum(Wrapped(xs[1..])));
    }
  }

  /** Sums of congruent terms are congruent, modulo 256. */
  lemma ModAdd(a: int, b: int, a2: int, b2: int)
    requires a2 % 256 == a % 256 && b2 % 256 == b % 256
    ensures (a2 + b2) % 256 == (a + b) % 256
  {
    var ka, kb, ka2, kb2 := a / 256, b / 256, a2 / 256, b2 / 256;
    assert a == 256 * ka + a % 256 && a2 == 256 * ka2 + a % 256;
    assert b == 256 * kb + b % 256 && b2 == 256 * kb2 + b % 256;
    assert a2 + b2 == (a + b) + 256 * (ka2 + kb2 - ka - kb);
  }

  /** The `uint8_t` bins of a report add up to the number of samples,
      modulo 256. */
  lemma BinTotals(s: seq<u16>, nbins: nat)
    requires nbins > 0
    ensures Sum(BinCounts(s, nbins)) % 256 == |s| % 256
  {
    SumWrapped(Counts(s, nbins));
    CountsTotal(s, nbins);
  }

  // ---------------------------------------------------------------------
  // Rendering

  /** The glyph of one bin. The threshold bin shows `|` when empty and `X`
      otherwise; other bins grade their count as ` `, `.`, `o`, `O`. */
  function Glyph(atThreshold: bool, count: u8): char
  {
    if atThreshold then (if count == 0 then '|' else 'X')
    else if count == 0 then ' '
    else if count < 5 then '.'
    else if count < 20 then 'o'
    else 'O'
  }

  /** Read back from a glyph: where the bin is, and the range its count is in. */
  lemma GlyphMeaning(atThreshold: bool, count: u8)
    ensures Glyph(atThreshold, count) in {'|', 'X'} <==> atThreshold
    ensures Glyph(atThreshold, count) in {'|', ' '} <==> count == 0
    ensures Glyph(atThreshold, count) == '.' <==> !atThreshold && 1 <= count < 5
    ensures Glyph(atThreshold, count) == 'o' <==> !atThreshold && 5 <= count < 20
    ensures Glyph(atThreshold, count) == 'O' <==> !atThreshold && 20 <= count
  {
  }

  /** The rendering loop of value_histogram: `[`, one glyph per bin, `]`
      and a newline. */
  method RenderLine(counts: seq<u8>, threshBin: u8) returns (line: string)
    ensures |line| == |counts| + 3 && line[0] == '[' && line[|counts| + 1..] == "]\n"
    ensures forall i :: 0 <= i < |counts| ==> line[i + 1] == Glyph(i == threshBin, counts[i])
  {
    line := "[";
    var i := 0;
    while i < |counts|
      invariant 0 <= i <= |counts|
      invariant |line| == i + 1 && line[0] == '['
      invariant forall j :: 0 <= j < i ==> line[j + 1] == Glyph(j == threshBin, counts[j])
    {
      var count := counts[i];
      var glyph: char;
      if i == threshBin {
        if count == 0 {
          glyph := '|';
        } else {
          glyph := 'X';
        }
      } else if count == 0 {
        glyph := ' ';
      } else if count < 5 {
        glyph := '.';
      } else if count < 20 {
        glyph := 'o';
      } else {
        glyph := 'O';
      }
      line := line + [glyph];
      i := i + 1;
    }
    line := line + "]\n";
  }

  // ---------------------------------------------------------------------
  // The report

  /** The static state of value_histogram: its bins and the time of the last
      report. `enabled` says whether HIST_BINS is defined at all. */
  class Histogram {
    const enabled: bool
    const bins: nat
    const threshold: nat
    const valBins: array<u8>
    var lastReport: int

    ghost predicate Valid()
      reads this
    {
      valBins.Length == bins && (enabled ==> 0 < bins < 256)
    }

    /** `enabled` is HIST_BINS being defined, `bins` its value (the bin loops
        count in a `uint8_t`, so it stays below 256), `threshold` is
        BEAM_THRESHOLD. */
    constructor (enabled: bool, bins: nat, threshold: nat)
      requires enabled ==> 0 < bins < 256
      ensures Valid() && fresh(valBins)
      ensures this.enabled == enabled && this.bins == bins && this.threshold == threshold
      ensures lastReport == 0 && forall i :: 0 <= i < bins ==> valBins[i] == 0
    {
      this.enabled := enabled;
      this.bins := bins;
      this.threshold := threshold;
      valBins := new u8[bins](_ => 0);
      lastReport := 0;
    }

    /** A call at time `now` reports: only with HIST_BINS defined, and never
        within 250 ms of the last report. */
    predicate ReportDue(now: int)
      reads this
      ensures ReportDue(now) ==> enabled
      ensures now < lastReport + ReportIntervalMs ==> !ReportDue(now)
      ensures enabled && now >= lastReport + ReportIntervalMs ==> ReportDue(now)
    {
      enabled && now - lastReport >= ReportIntervalMs
    }

    /** `thresh_bin`: BEAM_THRESHOLD >> 7 stored in a `uint8_t`. When the
        threshold fits a sample, it is the bin whose 128-wide range holds it. */
    function ThreshBin(): (t: u8)
      ensures threshold < 32768 ==> t as int * BinWidth <= threshold < (t as int + 1) * BinWidth
    {
      (threshold / BinWidth) % 256
    }

    /** value_histogram: returns whether it reported, and the line it
        printed. Samples are binned by the corrected BinOf. */
    method ValueHistogram(values: seq<u16>, now: int) returns (reported: bool, line: string)
      requires Valid()
      modifies this, valBins
      ensures Valid()
      ensures reported == old(ReportDue(now))
      ensures !reported ==> lastReport == old(lastReport) && valBins[..] == old(valBins[..]) && line == ""
      ensures reported ==> lastReport == now && valBins[..] == BinCounts(values, bins)
      ensures reported ==> |line| == bins + 3 && line[0] == '[' && line[bins + 1..] == "]\n"
      ensures reported ==> forall i :: 0 <= i < bins ==> line[i + 1] == Glyph(i == ThreshBin(), valBins[i])
    {
      if !enabled || now - lastReport < ReportIntervalMs {
        return false, "";
      }
      lastReport := now;
      var i := 0;
      while i < bins
        modifies valBins
        invariant 0 <= i <= bins
        invariant forall j :: 0 <= j < i ==> valBins[j] == 0
      {
        valBins[i] := 0;
        i := i + 1;
      }
      assert BinCounts([], bins) == valBins[..];
      i := 0;
      while i < |values|
        modifies valBins
        invariant 0 <= i <= |values|
        invariant valBins[..] == BinCounts(values[..i], bins)
      {
        var histVal: int := values[i] / BinWidth;
        if histVal >= bins {
          histVal := bins - 1;
        }
        BinCountsStep(values[..i], values[i], bins);
        assert values[..i + 1] == values[..i] + [values[i]];
        assert histVal == BinOf(values[i], bins);
        valBins[histVal] := (valBins[histVal] as int + 1) % 256;
        i := i + 1;
      }
      assert values[..|values|] == values;
      line := RenderLine(valBins[..], ThreshBin());
      reported := true;
    }
  }
}
