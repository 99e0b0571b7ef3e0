/** The battery gauge of `core/src/battery.rs`: the discharge table, and the filter in front
    of the screen. */
module Battery {
  import opened Results

  const OCV_MV: seq<nat> := [4050, 4010, 3990, 3930, 3870, 3820, 3740, 3630, 3550, 3450, 3100]
  const NO_CELL_BELOW_MV := 2_500
  const DEAD_BAND_MV := 10
  const SCALE := 16

  /** The most millivolts whose sixteenths an `i32` holds. */
  const MAX_MV := 0x7FF_FFFF

  // -------------------------------------------------------------------- the table

  /** The straight line across one step of the table, rounded to nearest. */
  function Between(mv: nat, i: nat): nat
    requires i < 10 && OCV_MV[i + 1] <= mv
  {
    90 - 10 * i + ((mv - OCV_MV[i + 1]) * 10 + (OCV_MV[i] - OCV_MV[i + 1]) / 2) / (OCV_MV[i] - OCV_MV[i + 1])
  }

  /** The walk down the table from step `i`. */
  function PercentFrom(mv: nat, i: nat): nat
    requires i <= 10
    decreases 10 - i
  {
    if i == 10 then 0
    else if mv >= OCV_MV[i + 1] then Between(mv, i)
    else PercentFrom(mv, i + 1)
  }

  function Percent(mv: nat): nat { if mv >= OCV_MV[0] then 100 else PercentFrom(mv, 0) }

  lemma BetweenBounds(mv: nat, i: nat)
    requires i < 10 && OCV_MV[i + 1] <= mv <= OCV_MV[i]
    ensures 90 - 10 * i <= Between(mv, i) <= 100 - 10 * i
    ensures mv == OCV_MV[i + 1] ==> Between(mv, i) == 90 - 10 * i
  {
  }

  lemma BetweenMonotone(a: nat, b: nat, i: nat)
    requires i < 10 && OCV_MV[i + 1] <= a <= b <= OCV_MV[i]
    ensures Between(a, i) <= Between(b, i)
  {
  }

  /** From step `i` down: no more than the step's own percentage. */
  lemma {:induction false} WalkBounds(mv: nat, i: nat)
    requires i <= 10 && mv <= OCV_MV[i]
    ensures PercentFrom(mv, i) <= 100 - 10 * i
    decreases 10 - i
  {
    hide Between;
    if i < 10 {
      if mv >= OCV_MV[i + 1] {
        BetweenBounds(mv, i);
      } else {
        WalkBounds(mv, i + 1);
      }
    }
  }

  lemma {:induction false} WalkMonotone(a: nat, b: nat, i: nat)
    requires i <= 10 && a <= b <= OCV_MV[i]
    ensures PercentFrom(a, i) <= PercentFrom(b, i)
    decreases 10 - i
  {
    hide Between;
    if i < 10 {
      if a >= OCV_MV[i + 1] {
        BetweenMonotone(a, b, i);
      } else if b >= OCV_MV[i + 1] {
        WalkBounds(a, i + 1);
        BetweenBounds(b, i);
      } else {
        WalkMonotone(a, b, i + 1);
      }
    }
  }

  /** More volts are never fewer percent, and no voltage is more than a hundred. */
  lemma {:induction false} PercentIsMonotone(a: nat, b: nat)
    requires a <= b
    ensures Percent(a) <= Percent(b) <= 100
  {
    hide PercentFrom;
    if b < OCV_MV[0] {
      WalkMonotone(a, b, 0);
    }
    if a < OCV_MV[0] {
      WalkBounds(a, 0);
    }
    if b < OCV_MV[0] {
      WalkBounds(b, 0);
    }
  }

  lemma {:induction false} WalkReaches(i: nat, k: nat)
    requires i <= k <= 10 && 0 < k
    ensures PercentFrom(OCV_MV[k], i) == if i == k then PercentFrom(OCV_MV[k], k) else 100 - 10 * k
    decreases k - i
  {
    hide Between;
    if i < k {
      if i + 1 == k {
        BetweenBounds(OCV_MV[k], i);
      } else {
        WalkReaches(i + 1, k);
      }
    }
  }

  /** The table's own points are exact. */
  lemma TablePointsAreExact(k: nat)
    requires k <= 10
    ensures Percent(OCV_MV[k]) == 100 - 10 * k
  {
    if k > 0 {
      WalkReaches(0, k);
    }
  }

  lemma {:induction false} WalkFinds(mv: nat, i: nat, k: nat)
    requires i <= k < 10 && OCV_MV[k + 1] <= mv < OCV_MV[k]
    ensures PercentFrom(mv, i) == Between(mv, k)
    decreases k - i
  {
    hide Between;
    if i < k {
      TableFalls(i + 1, k);
      WalkFinds(mv, i + 1, k);
    }
  }

  lemma {:induction false} TableFalls(i: nat, k: nat)
    requires i <= k <= 10
    ensures OCV_MV[k] <= OCV_MV[i]
    decreases k - i
  {
    if i < k {
      TableFalls(i + 1, k);
    }
  }

  /** Between two points of the table the percentage is the straight line's, ten to a step, to
      the nearest and up from half, both sides times twice the step. */
  lemma {:induction false} BetweenIsNearest(mv: nat, k: nat)
    requires k < 10 && OCV_MV[k + 1] <= mv < OCV_MV[k]
    ensures var span, over := OCV_MV[k] - OCV_MV[k + 1], mv - OCV_MV[k + 1];
            20 * over - span < 2 * span * (Percent(mv) - (90 - 10 * k)) <= 20 * over + span
  {
    hide Between;
    TableFalls(0, k);
    WalkFinds(mv, 0, k);
    BetweenIs(mv, k);
    NearestOnStep(mv - OCV_MV[k + 1], OCV_MV[k] - OCV_MV[k + 1]);
  }

  lemma BetweenIs(mv: nat, k: nat)
    requires k < 10 && OCV_MV[k + 1] <= mv
    ensures OCV_MV[k + 1] < OCV_MV[k] && (OCV_MV[k] - OCV_MV[k + 1]) % 2 == 0
    ensures Between(mv, k) == 90 - 10 * k
      + ((mv - OCV_MV[k + 1]) * 10 + (OCV_MV[k] - OCV_MV[k + 1]) / 2) / (OCV_MV[k] - OCV_MV[k + 1])
  {
  }

  lemma NearestOnStep(over: nat, span: nat)
    requires span > 0 && span % 2 == 0
    ensures 20 * over - span < 2 * span * ((over * 10 + span / 2) / span) <= 20 * over + span
  {
    var q := (over * 10 + span / 2) / span;
    assert q * span <= over * 10 + span / 2 < q * span + span;
    assert 2 * span * q == 2 * (q * span);
  }

  // ------------------------------------------------------------------- the reading

  datatype Reading = Reading(millivolts: nat, percent: nat)

  function CellMillivolts(count: int): nat {
    var pin: nat := (if count < 0 then 0 else count) * 3_600 / 4_096;
    pin * (806_000 + 1_500_000) / 1_500_000
  }

  function Read(count: int): (r: Option<Reading>)
    ensures r.Some? <==> CellMillivolts(count) >= NO_CELL_BELOW_MV
    ensures r.Some? && count <= 32_767 ==> r.value.millivolts <= MAX_MV
  {
    var mv := CellMillivolts(count);
    if mv < NO_CELL_BELOW_MV then None else Some(Reading(mv, Percent(mv)))
  }

  /** The cell's millivolts as the divider and the ADC have them, untruncated. */
  function CellVolts(count: nat): real { count as real * 3_600.0 / 4_096.0 * 2_306.0 / 1_500.0 }

  lemma TruncatedTwice(count: nat)
    ensures CellMillivolts(count) as real <= CellVolts(count) < CellMillivolts(count) as real + 3.0
  {
    var pin := count * 3_600 / 4_096;
    assert pin * 4_096 <= count * 3_600 < (pin + 1) * 4_096;
    var mv := pin * 2_306_000 / 1_500_000;
    assert mv * 1_500 <= pin * 2_306 < (mv + 1) * 1_500;
  }

  /** There is a reading from a count of 1852 up, and for no other; its voltage is the cell's,
      less than three millivolts under; and its percentage is that voltage's. */
  lemma ReadingIsNearTheCell(count: int)
    ensures Read(count).Some? <==> count >= 1_852
    ensures Read(count).Some? ==>
            && Read(count).value.millivolts as real <= CellVolts(count) < Read(count).value.millivolts as real + 3.0
            && Read(count).value.percent == Percent(Read(count).value.millivolts)
  {
    hide Percent;
    FirstReading(count);
    if count >= 0 {
      TruncatedTwice(count);
    }
  }

  lemma FirstReading(count: int)
    ensures CellMillivolts(count) >= NO_CELL_BELOW_MV <==> count >= 1_852
  {
    var pin := (if count < 0 then 0 else count) * 3_600 / 4_096;
    assert pin >= 1_627 <==> count >= 1_852;
  }

  // -------------------------------------------------------------------- the filter

  /** The average, scaled by sixteen, and the reading on show. */
  datatype Filter = Filter(average: Option<int>, shown: Option<Reading>)

  const EMPTY := Filter(None, None)

  /** Division that truncates towards zero, as `i32`'s does. */
  function Quarter(n: int): int { if n >= 0 then n / 4 else -(-n / 4) }

  function Distance(a: int, b: int): nat { if a >= b then a - b else b - a }

  function NextAverage(f: Filter, mv: nat): int {
    if f.average.None? then mv * SCALE else f.average.value + Quarter(mv * SCALE - f.average.value)
  }

  function Step(f: Filter, sample: Option<Reading>): Filter {
    if sample.None? then EMPTY
    else
      var average := NextAverage(f, sample.value.millivolts);
      var mv := if average >= 0 then average / SCALE else 0;
      if f.shown.None? || Distance(f.shown.value.millivolts, mv) >= DEAD_BAND_MV then
        Filter(Some(average), Some(Reading(mv, Percent(mv))))
      else Filter(Some(average), f.shown)
  }

  class Smoothed {
    var average: Option<int>
    var shown: Option<Reading>

    ghost predicate Valid()
      reads this
    {
      average.Some? ==> average.value >= 0
    }

    constructor ()
      ensures Valid() && State() == EMPTY
    {
      average, shown := None, None;
    }

    function State(): Filter
      reads this
    {
      Filter(average, shown)
    }

    method Update(sample: Option<Reading>) returns (r: Option<Reading>)
      requires sample.Some? ==> sample.value.millivolts <= MAX_MV
      requires Valid()
      modifies this
      ensures Valid() && State() == Step(old(State()), sample) && r == shown
    {
      if sample.None? {
        average, shown := None, None;
        return None;
      }
      var target := sample.value.millivolts * SCALE;
      var next := if average.None? then target else average.value + Quarter(target - average.value);
      average := Some(next);
      var mv := next / SCALE;
      if shown.None? || Distance(shown.value.millivolts, mv) >= DEAD_BAND_MV {
        shown := Some(Reading(mv, Percent(mv)));
      }
      r := shown;
    }
  }

  // ---------------------------------------------------------------------- whole runs

  function Run(samples: seq<Option<Reading>>): Filter {
    if samples == [] then EMPTY else Step(Run(samples[..|samples| - 1]), samples[|samples| - 1])
  }

  /** The samples since the cell was last seen to be missing. */
  function SinceReset(samples: seq<Option<Reading>>): seq<nat> {
    if samples == [] || samples[|samples| - 1].None? then []
    else SinceReset(samples[..|samples| - 1]) + [samples[|samples| - 1].value.millivolts]
  }

  lemma QuarterStaysBetween(average: int, target: int, low: int, high: int)
    requires low <= average <= high && low <= target <= high
    ensures low <= average + Quarter(target - average) <= high
  {
  }

  /** Over any run: the average lies among the samples since the cell was last missing, the
      shown voltage is within the dead band of it, the shown percentage is that of the shown
      voltage, and something is shown exactly while there is a cell. */
  lemma {:induction false} RunsTrackTheCell(samples: seq<Option<Reading>>, low: nat, high: nat)
    requires forall v | v in SinceReset(samples) :: low <= v <= high
    ensures var f := Run(samples);
            && (f.average.Some? <==> SinceReset(samples) != []) && (f.shown.Some? <==> f.average.Some?)
            && (f.average.Some? ==>
                  && low * SCALE <= f.average.value <= high * SCALE
                  && Distance(f.shown.value.millivolts, f.average.value / SCALE) < DEAD_BAND_MV
                  && f.shown.value.percent == Percent(f.shown.value.millivolts))
  {
    hide Percent;
    if samples != [] && samples[|samples| - 1].Some? {
      var before, mv := samples[..|samples| - 1], samples[|samples| - 1].value.millivolts;
      assert forall v | v in SinceReset(before) :: v in SinceReset(samples);
      RunsTrackTheCell(before, low, high);
      assert mv in SinceReset(samples);
      if Run(before).average.Some? {
        QuarterStaysBetween(Run(before).average.value, mv * SCALE, low * SCALE, high * SCALE);
      }
    }
  }

  function Repeated(f: Filter, sample: Reading, n: nat): Filter {
    if n == 0 then f else Step(Repeated(f, sample, n - 1), Some(sample))
  }

  /** One step towards a constant sample closes a quarter of the gap, so it always gets
      nearer, until it is within three sixteenths and stays put. */
  lemma StepCloses(average: int, target: int)
    ensures var next := average + Quarter(target - average);
            && (Distance(next, target) < Distance(average, target) <==> Distance(average, target) > 3)
            && (Distance(average, target) <= 3 ==> next == average)
            && 4 * Distance(next, target) <= 3 * Distance(average, target) + 3
  {
  }

  /** Under a constant sample the average arrives, within 3/16 mV, in no more steps than it
      has sixteenths to go; and then does not move. */
  lemma {:induction false} ConstantSamplesConverge(f: Filter, sample: Reading, n: nat)
    requires f.average.Some?
    ensures var g, target := Repeated(f, sample, n), sample.millivolts * SCALE;
            && g.average.Some?
            && (Distance(g.average.value, target) <= 3
                || Distance(g.average.value, target) + n <= Distance(f.average.value, target))
            && (n >= Distance(f.average.value, target) ==> Distance(g.average.value, target) <= 3)
  {
    hide Percent, Quarter;
    if n > 0 {
      ConstantSamplesConverge(f, sample, n - 1);
      StepCloses(Repeated(f, sample, n - 1).average.value, sample.millivolts * SCALE);
    }
  }

  /** Where it comes to rest: where it was if that is within three sixteenths, and otherwise
      exactly three sixteenths short, on the side it came from. */
  lemma {:induction false} TheFilterRests(f: Filter, sample: Reading, n: nat)
    requires f.average.Some? && n >= Distance(f.average.value, sample.millivolts * SCALE)
    ensures var start, target := f.average.value, sample.millivolts * SCALE;
            Repeated(f, sample, n).average
            == Some(if Distance(start, target) <= 3 then start else if start < target then target - 3 else target + 3)
  {
    ConstantSamplesConverge(f, sample, n);
    KeepsItsSide(f, sample, n);
  }

  lemma {:induction false} KeepsItsSide(f: Filter, sample: Reading, n: nat)
    requires f.average.Some?
    ensures var g, start, target := Repeated(f, sample, n), f.average.value, sample.millivolts * SCALE;
            && g.average.Some?
            && (Distance(start, target) <= 3 ==> g.average == f.average)
            && (start < target - 3 ==> g.average.value <= target - 3)
            && (start > target + 3 ==> g.average.value >= target + 3)
  {
    hide Percent, Quarter;
    if n > 0 {
      KeepsItsSide(f, sample, n - 1);
      StepKeepsItsSide(Repeated(f, sample, n - 1).average.value, sample.millivolts * SCALE);
    }
  }

  lemma StepKeepsItsSide(average: int, target: int)
    ensures var next := average + Quarter(target - average);
            && (Distance(average, target) <= 3 ==> next == average)
            && (average <= target - 3 ==> next <= target - 3)
            && (average >= target + 3 ==> next >= target + 3)
  {
  }

  function Times(sample: Option<Reading>, n: nat): (samples: seq<Option<Reading>>)
    ensures |samples| == n
  {
    if n == 0 then [] else Times(sample, n - 1) + [sample]
  }

  lemma {:induction false} RunRepeats(samples: seq<Option<Reading>>, sample: Reading, n: nat)
    ensures Run(samples + Times(Some(sample), n)) == Repeated(Run(samples), sample, n)
    decreases n
  {
    hide Step;
    var all := samples + Times(Some(sample), n);
    if n == 0 {
      assert all == samples;
    } else {
      RunRepeats(samples, sample, n - 1);
      assert all[..|all| - 1] == samples + Times(Some(sample), n - 1);
    }
  }

  /** So it always stops short: take any two readings of the ADC that differ, the first once
      and the second for good. The average ends three sixteenths from the second and stays. */
  lemma {:induction false} TheFilterStopsShort(a: int, b: int, n: nat)
    requires Read(a).Some? && Read(b).Some?
    requires var was, now := Read(a).value.millivolts, Read(b).value.millivolts;
             was != now && n >= SCALE * Distance(was, now)
    ensures var was, now := Read(a).value.millivolts, Read(b).value.millivolts;
            Run([Read(a)] + Times(Read(b), n)).average
            == Some(if was < now then now * SCALE - 3 else now * SCALE + 3)
  {
    hide Read, Percent, Step, Run, Repeated;
    FirstSample(Read(a).value);
    RunRepeats([Read(a)], Read(b).value, n);
    TheFilterRests(Run([Read(a)]), Read(b).value, n);
  }

  lemma FirstSample(sample: Reading)
    ensures Run([Some(sample)]).average == Some(sample.millivolts * SCALE)
  {
    hide Percent;
    assert [Some(sample)][..0] == [];
  }

  /** For one, a count of 2600 and then 2601: 3514 mV in the end, and the average says 3513. */
  lemma {:induction false} AnAverageThatStopsShort(n: nat)
    requires n >= 32
    ensures var average := Run([Read(2_600)] + Times(Read(2_601), n)).average;
            Read(2_601).Some? && Read(2_601).value.millivolts == 3_514
            && average == Some(3_514 * SCALE - 3) && average.value / SCALE == 3_513
  {
    hide Percent, Run;
    assert CellMillivolts(2_600) == 3_512 && CellMillivolts(2_601) == 3_514;
    TheFilterStopsShort(2_600, 2_601, n);
  }
}
