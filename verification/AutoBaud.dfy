/** UART auto-baud (src/slidko/measure/uart.py): the bit period from the edges alone, the snap
    to the baud table, and the start-bit framing score. */
module AutoBaud {
  import opened Numbers
  import opened Results
  import opened Signals
  import opened Uart

  // ---------------------------------------------------------------------------------------
  // Bit period
  // ---------------------------------------------------------------------------------------

  function MinOf(s: seq<int>): (m: int)
    requires s != []
    ensures m in s
    ensures forall i :: 0 <= i < |s| ==> m <= s[i]
  {
    if |s| == 1 then s[0] else Min(MinOf(s[..|s| - 1]), s[|s| - 1])
  }

  function Sum(s: seq<real>): real {
    if s == [] then 0.0 else Sum(s[..|s| - 1]) + s[|s| - 1]
  }

  function Mean(s: seq<real>): real
    requires s != []
  {
    Sum(s) / |s| as real
  }

  /** An interval divided by its nearest multiple of the candidate period (at least one). */
  function UnitInterval(interval: int, candidate: real): real
    requires candidate > 0.0
  {
    var multiple := Max(1, Round(interval as real / candidate));
    interval as real / multiple as real
  }

  function UnitIntervals(intervals: seq<int>, candidate: real): seq<real>
    requires candidate > 0.0
  {
    seq(|intervals|, i requires 0 <= i < |intervals| => UnitInterval(intervals[i], candidate))
  }

  /** `estimate_bit_period`: the shortest interval is the first guess, refined by averaging. */
  function EstimateBitPeriod(edges: seq<Edge>): Option<real> {
    var intervals := Intervals(edges);
    if |intervals| == 0 then None
    else
      var candidate := MinOf(intervals) as real;
      if candidate <= 0.0 then None
      else Some(Mean(UnitIntervals(intervals, candidate)))
  }

  lemma {:induction false} SumOfEqual(s: seq<real>, c: real)
    requires forall i :: 0 <= i < |s| ==> s[i] == c
    ensures Sum(s) == |s| as real * c
  {
    if s != [] {
      SumOfEqual(s[..|s| - 1], c);
      assert (|s| - 1) as real * c + c == |s| as real * c;
    }
  }

  lemma {:induction false} SumAbove(s: seq<real>, c: real)
    requires forall i :: 0 <= i < |s| ==> s[i] > c
    ensures s != [] ==> Sum(s) > |s| as real * c
  {
    if s != [] {
      SumAbove(s[..|s| - 1], c);
      assert (|s| - 1) as real * c + c == |s| as real * c;
    }
  }

  lemma {:induction false} MeanVersus(s: seq<real>, c: real)
    requires s != []
    ensures (forall i :: 0 <= i < |s| ==> s[i] == c) ==> Mean(s) == c
    ensures (forall i :: 0 <= i < |s| ==> s[i] > c) ==> Mean(s) > c
  {
    var n := |s| as real;
    if forall i :: 0 <= i < |s| ==> s[i] == c {
      SumOfEqual(s, c);
      Cancel(n, c);
    }
    if forall i :: 0 <= i < |s| ==> s[i] > c {
      SumAbove(s, c);
      Cancel(n, c);
      DivideAbove(Sum(s), n * c, n);
    }
  }

  lemma Cancel(n: real, c: real)
    requires n > 0.0
    ensures n * c / n == c
  {
  }

  lemma DivideAbove(x: real, y: real, n: real)
    requires x > y && n > 0.0
    ensures x / n > y / n
  {
  }

  lemma RatioOfMultiples(m: int, c: int, cell: int)
    requires c > 0 && cell > 0
    ensures (m * cell) as real > 0.0 || m <= 0
    ensures (c * cell) as real > 0.0
    ensures (m * cell) as real / (c * cell) as real == m as real / c as real
  {
    var mr, cr, x := m as real, c as real, cell as real;
    ProductAsReal(m, cell);
    ProductAsReal(c, cell);
    assert cr * x > 0.0;
    assert (mr / cr) * (cr * x) == mr * x by {
      assert (mr / cr) * cr == mr;
      assert (mr / cr) * (cr * x) == ((mr / cr) * cr) * x;
    }
  }

  lemma ProductAsReal(m: int, n: int)
    ensures (m * n) as real == m as real * n as real
  {
  }

  /** If the shortest interval is one cell, each interval contributes exactly the cell. */
  lemma UnitIntervalExact(m: int, cell: int)
    requires m >= 1 && cell >= 1
    ensures UnitInterval(m * cell, cell as real) == cell as real
  {
    RatioOfMultiples(m, 1, cell);
    RoundOfInteger(m);
    ProductAsReal(m, cell);
    Cancel(m as real, cell as real);
  }

  /** If the shortest interval is longer than a cell, every interval contributes too much. */
  lemma UnitIntervalTooLong(m: int, c: int, cell: int)
    requires m >= c >= 2 && cell >= 1
    ensures (c * cell) as real > 0.0
    ensures UnitInterval(m * cell, (c * cell) as real) > cell as real
  {
    RatioOfMultiples(m, c, cell);
    var q := m as real / c as real;
    QuotientBounds(m as real, c as real);
    var r := Max(1, Round(q));
    assert 1 <= r < m;
    ProductAsReal(m, cell);
    Cancel(r as real, cell as real);
    assert r as real * cell as real < m as real * cell as real;
    DivideAbove(m as real * cell as real, r as real * cell as real, r as real);
  }

  lemma QuotientBounds(m: real, c: real)
    requires m >= c >= 2.0
    ensures 1.0 <= m / c <= m / 2.0
  {
    var q := m / c;
    assert q * c == m;
    assert q >= 0.0;
  }

  /** On a signal made of cells the estimate is the cell length exactly when some level lasts
      a single cell. */
  lemma {:induction false} PeriodExactly(levels: seq<bool>, cell: nat)
    requires cell >= 1 && |Intervals(Edges(levels))| >= 1
    ensures EstimateBitPeriod(Edges(Stretch(levels, cell))) == Some(cell as real)
       <==> 1 in Intervals(Edges(levels))
  {
    var units, intervals := Intervals(Edges(levels)), Intervals(Edges(Stretch(levels, cell)));
    IntervalsStretch(levels, cell);
    IntervalsPositive(levels);
    MinScales(units, intervals, cell);
    EstimateOfMultiples(units, intervals, cell);
  }

  lemma {:induction false} EstimateOfMultiples(units: seq<int>, intervals: seq<int>, cell: nat)
    requires |units| == |intervals| >= 1 && cell >= 1
    requires forall i :: 0 <= i < |units| ==> units[i] >= 1 && intervals[i] == units[i] * cell
    requires MinOf(intervals) == MinOf(units) * cell > 0
    ensures Mean(UnitIntervals(intervals, MinOf(intervals) as real)) == cell as real <==> MinOf(units) == 1
  {
    var contributions := UnitIntervals(intervals, MinOf(intervals) as real);
    MeanVersus(contributions, cell as real);
    if MinOf(units) == 1 {
      forall i | 0 <= i < |intervals| ensures contributions[i] == cell as real {
        UnitIntervalExact(units[i], cell);
      }
    } else {
      assert MinOf(units) >= 2 by { assert MinOf(units) in units; }
      forall i | 0 <= i < |intervals| ensures contributions[i] > cell as real {
        UnitIntervalTooLong(units[i], MinOf(units), cell);
      }
    }
  }

  lemma {:induction false} MinScales(units: seq<int>, intervals: seq<int>, cell: nat)
    requires |units| == |intervals| >= 1 && cell >= 1
    requires forall i :: 0 <= i < |units| ==> units[i] >= 1 && intervals[i] == units[i] * cell
    ensures MinOf(units) >= 1 && MinOf(intervals) == MinOf(units) * cell > 0
    ensures MinOf(units) == 1 <==> 1 in units
  {
    var u, v := MinOf(units), MinOf(intervals);
    var i :| 0 <= i < |units| && units[i] == u;
    var j :| 0 <= j < |intervals| && intervals[j] == v;
    assert v <= intervals[i] == u * cell;
    MulMonotone(u, units[j], cell);
    MulMonotone(1, u, cell);
    if 1 in units {
      var k :| 0 <= k < |units| && units[k] == 1;
      assert u <= units[k];
    }
  }

  // ---------------------------------------------------------------------------------------
  // Lone bits
  // ---------------------------------------------------------------------------------------

  /** Cell `j` differs from both neighbours. */
  ghost predicate LoneCell(levels: seq<bool>, j: int) {
    0 < j < |levels| - 1 && levels[j - 1] != levels[j] && levels[j] != levels[j + 1]
  }

  ghost predicate HasLoneCell(levels: seq<bool>) {
    exists j :: LoneCell(levels, j)
  }

  lemma {:induction false} LoneCellIsUnitInterval(levels: seq<bool>)
    ensures HasLoneCell(levels) <==> 1 in Intervals(Edges(levels))
  {
    EdgesExact(levels);
    UnitIntervalIsLoneCell(levels, Edges(levels));
    if j :| LoneCell(levels, j) {
      LoneCellMakesUnitInterval(levels, Edges(levels), j);
    }
  }

  lemma {:induction false} UnitIntervalIsLoneCell(levels: seq<bool>, edges: seq<Edge>)
    requires AreEdges(levels, edges)
    ensures 1 in Intervals(edges) ==> HasLoneCell(levels)
  {
    if 1 in Intervals(edges) {
      var i :| 0 <= i < |Intervals(edges)| && Intervals(edges)[i] == 1;
      IntervalAt(edges, i);
      AdjacentEdgesMakeLoneCell(levels, edges, i);
    }
  }

  lemma {:induction false} AdjacentEdgesMakeLoneCell(levels: seq<bool>, edges: seq<Edge>, i: nat)
    requires AreEdges(levels, edges) && i + 1 < |edges| && edges[i + 1].index == edges[i].index + 1
    ensures LoneCell(levels, edges[i].index)
  {
    EdgeAt(levels, edges, i);
    EdgeAt(levels, edges, i + 1);
  }

  lemma {:induction false} LoneCellMakesUnitInterval(levels: seq<bool>, edges: seq<Edge>, j: int)
    requires AreEdges(levels, edges) && LoneCell(levels, j)
    ensures 1 in Intervals(edges)
  {
    var p := FindEdge(levels, edges, j);
    var q := FindEdge(levels, edges, j + 1);
    AdjacentEdges(edges, p, q);
  }

  lemma {:induction false} AdjacentEdges(edges: seq<Edge>, p: nat, q: nat)
    requires Increasing(edges) && p < |edges| && q < |edges| && edges[q].index == edges[p].index + 1
    ensures 1 in Intervals(edges)
  {
    assert q == p + 1 by {
      if q <= p {
        EdgeGap(edges, q, p);
      } else {
        EdgeGap(edges, p, q);
      }
    }
    IntervalAt(edges, p);
  }

  /** Behind two high cells, lone cells on the right are seen with one high cell of context. */
  lemma {:induction false} LoneCellSplits(a: seq<bool>, b: seq<bool>)
    requires |a| >= 2 && a[|a| - 1] && a[|a| - 2]
    ensures HasLoneCell(a + b) <==> HasLoneCell(a) || HasLoneCell([true] + b)
  {
    var n := |a|;
    if j :| LoneCell(a + b, j) {
      assert j != n - 1;
      if j < n - 1 {
        assert LoneCell(a, j);
      } else {
        assert LoneCell([true] + b, j - n + 1);
      }
    }
    if j :| LoneCell(a, j) {
      assert LoneCell(a + b, j);
    }
    if j :| LoneCell([true] + b, j) {
      assert LoneCell(a + b, n - 1 + j);
    }
  }

  /** A byte whose frame, read from an idle line, holds some level for one bit only. */
  ghost predicate HasLoneBit(byte: int, format: Format) {
    HasLoneCell([true] + FrameCell(byte, format))
  }

  lemma OddByteHasLoneBit(byte: int, format: Format)
    requires byte % 2 == 1 && format.dataBits >= 1
    ensures HasLoneBit(byte, format)
  {
    BitZero(byte);
    assert LoneCell([true] + FrameCell(byte, format), 1);  // the start bit
  }

  lemma {:induction false} CellsHaveLoneBit(payload: seq<int>, format: Format)
    ensures var line := Fill(true, IDLE_LEAD_BITS) + FrameCells(payload, format);
      && |line| >= 2 && line[|line| - 1] && line[|line| - 2]
      && (HasLoneCell(line) <==> SomeLoneBit(payload, format))
  {
    var lead := Fill(true, IDLE_LEAD_BITS);
    if payload == [] {
      assert lead + FrameCells(payload, format) == lead;
    } else {
      var n := |payload| - 1;
      CellsHaveLoneBit(payload[..n], format);
      var front, last := lead + FrameCells(payload[..n], format), FrameCell(payload[n], format);
      assert lead + FrameCells(payload, format) == front + last;
      LoneCellSplits(front, last);
      SomeSplits(payload, format);
    }
  }

  ghost predicate SomeLoneBit(payload: seq<int>, format: Format) {
    exists i :: 0 <= i < |payload| && HasLoneBit(payload[i], format)
  }

  lemma {:induction false} SomeSplits(payload: seq<int>, format: Format)
    requires payload != []
    ensures var n := |payload| - 1;
      SomeLoneBit(payload, format) <==> SomeLoneBit(payload[..n], format) || HasLoneBit(payload[n], format)
  {
    var n := |payload| - 1;
    if i :| 0 <= i < n && HasLoneBit(payload[i], format) {
      assert payload[..n][i] == payload[i];
    }
  }

  lemma {:induction false} LineHasLoneCell(payload: seq<int>, format: Format)
    ensures HasLoneCell(LineLevels(payload, format))
       <==> SomeLoneBit(payload, format)
  {
    CellsHaveLoneBit(payload, format);
    var line := Fill(true, IDLE_LEAD_BITS) + FrameCells(payload, format);
    LoneCellSplits(line, Fill(true, IDLE_TRAIL_BITS));
  }

  lemma {:induction false} FirstFrameFalls(payload: seq<int>, format: Format)
    requires payload != []
    ensures |FrameCells(payload, format)| > 3 && !FrameCells(payload, format)[0]
  {
    var n := |payload| - 1;
    if n > 0 {
      FirstFrameFalls(payload[..n], format);
    } else {
      assert FrameCells(payload[..0], format) == [];
    }
  }

  ghost predicate HasPolarity(edges: seq<Edge>, rising: bool) {
    exists i :: 0 <= i < |edges| && edges[i].rising == rising
  }

  /** Some edge falls and some rises, so there is an interval to measure. */
  lemma {:induction false} LineHasEdges(payload: seq<int>, format: Format)
    requires payload != []
    ensures |Intervals(Edges(LineLevels(payload, format)))| >= 1
    ensures forall rising :: HasPolarity(Edges(LineLevels(payload, format)), rising)
  {
    var line := LineLevels(payload, format);
    EdgesExact(line);
    FirstFrameFalls(payload, format);
    assert !line[IDLE_LEAD_BITS] && line[|line| - 1];
    var p := FindEdge(line, Edges(line), IDLE_LEAD_BITS);
    var j := FirstRise(line, IDLE_LEAD_BITS);
    var q := FindEdge(line, Edges(line), j);
    assert !Edges(line)[p].rising && Edges(line)[q].rising;
  }

  lemma {:induction false} FirstRise(c: seq<bool>, from: nat) returns (j: nat)
    requires from < |c| && !c[from] && c[|c| - 1]
    ensures from < j < |c| && IsEdge(c, j) && c[j]
    decreases |c| - from
  {
    if c[from + 1] {
      j := from + 1;
    } else {
      j := FirstRise(c, from + 1);
    }
  }

  /** The estimate on a generated capture is the generator's bit period exactly when some
      payload byte has a lone bit. */
  lemma {:induction false} PayloadPeriodExactly(g: Generator)
    requires g.Signal().Ok?
    ensures var bitSamples := Round(g.sampleRate as real / g.baud as real);
      EstimateBitPeriod(Edges(g.Signal().value)) == Some(bitSamples as real)
      <==> SomeLoneBit(g.Payload(), g.format)
  {
    var levels := LineLevels(g.Payload(), g.format);
    LineHasEdges(g.Payload(), g.format);
    PeriodExactly(levels, Round(g.sampleRate as real / g.baud as real));
    LoneCellIsUnitInterval(levels);
    LineHasLoneCell(g.Payload(), g.format);
  }
}
