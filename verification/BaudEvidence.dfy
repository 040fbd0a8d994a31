/** What each part of a baud estimate (src/slidko/measure/uart.py) says about the channel it was
    made from: the averaged bit period, the idle level, the framing score and the confidence. */
module BaudEvidence {
  import opened Numbers
  import opened Results
  import opened Signals
  import opened Uart
  import opened AutoBaud
  import opened InferUart

  // ---------------------------------------------------------------------------------------
  // The bit period of any edge list
  // ---------------------------------------------------------------------------------------

  /** `m` shortest intervals fit the interval best; between two multiples the even one counts. */
  ghost predicate NearestMultiple(interval: int, shortest: int, m: int) {
    && m >= 1
    && -shortest <= 2 * (interval - m * shortest) <= shortest
    && (2 * (interval - m * shortest) == shortest || 2 * (interval - m * shortest) == -shortest ==> m % 2 == 0)
  }

  /** Each interval is `multiples[i]` times `parts[i]`, that multiple being nearest. */
  ghost predicate Divided(intervals: seq<int>, shortest: int, multiples: seq<int>, parts: seq<real>) {
    && |multiples| == |parts| == |intervals|
    && forall i :: 0 <= i < |intervals| ==>
         NearestMultiple(intervals[i], shortest, multiples[i])
         && parts[i] * multiples[i] as real == intervals[i] as real
  }

  ghost predicate IsShortest(intervals: seq<int>, shortest: int) {
    shortest in intervals && forall i :: 0 <= i < |intervals| ==> shortest <= intervals[i]
  }

  lemma NearestFromRatio(interval: int, shortest: int, ratio: real)
    requires 1 <= shortest <= interval && ratio * shortest as real == interval as real
    ensures Max(1, Round(ratio)) == Round(ratio) && NearestMultiple(interval, shortest, Round(ratio))
  {
    var m, s := Round(ratio), shortest as real;
    ScaleAtMost(1.0, ratio, s);
    RoundMonotone(1.0, ratio);
    assert Round(1.0) == 1;
    ProductAsReal(m, shortest);
    Minus(ratio, m as real, s);
    NearestInTime(interval - m * shortest, shortest, m, ratio - m as real);
  }

  lemma ScaleAtMost(x: real, y: real, c: real)
    requires c > 0.0
    ensures x <= y <==> x * c <= y * c
  {
  }

  lemma Minus(x: real, y: real, c: real)
    ensures (x - y) * c == x * c - y * c
  {
  }

  lemma NearestInTime(rest: int, shortest: int, m: int, d: real)
    requires shortest >= 1 && rest as real == d * shortest as real && -0.5 <= d <= 0.5
    requires d == 0.5 || d == -0.5 ==> m % 2 == 0
    ensures -shortest <= 2 * rest <= shortest
    ensures 2 * rest == shortest || 2 * rest == -shortest ==> m % 2 == 0
  {
    Halves(d, shortest as real, rest as real);
  }

  lemma Halves(d: real, s: real, x: real)
    requires s > 0.0 && x == d * s && -0.5 <= d <= 0.5
    ensures -s <= 2.0 * x <= s
    ensures 2.0 * x == s ==> d == 0.5
    ensures 2.0 * x == -s ==> d == -0.5
  {
    assert (0.5 - d) * s == 0.5 * s - x;
    assert (d + 0.5) * s == x + 0.5 * s;
    SignOf(0.5 - d, s);
    SignOf(d + 0.5, s);
  }

  lemma SignOf(x: real, c: real)
    requires c > 0.0
    ensures x < 0.0 <==> x * c < 0.0
    ensures x == 0.0 <==> x * c == 0.0
  {
  }

  lemma {:induction false} UnitsDivide(intervals: seq<int>, shortest: int) returns (multiples: seq<int>)
    requires shortest >= 1 && forall i :: 0 <= i < |intervals| ==> shortest <= intervals[i]
    ensures Divided(intervals, shortest, multiples, UnitIntervals(intervals, shortest as real))
  {
    multiples := seq(|intervals|, i requires 0 <= i < |intervals| => Round(intervals[i] as real / shortest as real));
    hide NearestMultiple, UnitInterval, Round;
    forall i | 0 <= i < |intervals|
      ensures NearestMultiple(intervals[i], shortest, multiples[i])
      ensures UnitIntervals(intervals, shortest as real)[i] * multiples[i] as real == intervals[i] as real
    {
      UnitDivides(intervals[i], shortest);
    }
  }

  lemma UnitDivides(interval: int, shortest: int)
    requires 1 <= shortest <= interval
    ensures var m := Round(interval as real / shortest as real);
      NearestMultiple(interval, shortest, m) && UnitInterval(interval, shortest as real) * m as real == interval as real
  {
    hide NearestMultiple;
    var ratio := interval as real / shortest as real;
    RatioTimes(interval as real, shortest as real, ratio);
    NearestFromRatio(interval, shortest, ratio);
    hide Round;
    AtLeastOneMultiple(interval, shortest, Round(ratio));
    RatioTimes(interval as real, Round(ratio) as real, interval as real / Round(ratio) as real);
  }

  lemma AtLeastOneMultiple(interval: int, shortest: int, m: int)
    requires NearestMultiple(interval, shortest, m)
    ensures m >= 1
  {
  }

  lemma RatioTimes(x: real, y: real, q: real)
    requires y > 0.0 && q == x / y
    ensures q * y == x
  {
  }

  /** The estimate is the mean, over all intervals, of the interval divided by the multiple of the
      shortest one that is nearest to it. */
  lemma {:induction false} EstimateExactly(edges: seq<Edge>)
    returns (shortest: int, multiples: seq<int>, parts: seq<real>)
    ensures EstimateBitPeriod(edges).None?
        <==> Intervals(edges) == [] || exists i :: 0 <= i < |Intervals(edges)| && Intervals(edges)[i] <= 0
    ensures EstimateBitPeriod(edges).Some? ==>
      && IsShortest(Intervals(edges), shortest)
      && Divided(Intervals(edges), shortest, multiples, parts)
      && EstimateBitPeriod(edges).value * |parts| as real == Sum(parts)
  {
    var intervals := Intervals(edges);
    hide Intervals, Sum, UnitInterval;
    shortest, multiples, parts := 0, [], [];
    if intervals != [] {
      shortest := MinOf(intervals);
      if shortest >= 1 {
        multiples := UnitsDivide(intervals, shortest);
        parts := UnitIntervals(intervals, shortest as real);
        MeanTimes(parts);
      }
    }
  }

  lemma MeanTimes(s: seq<real>)
    requires s != []
    ensures Mean(s) * |s| as real == Sum(s)
  {
    hide Sum;
  }

  // ---------------------------------------------------------------------------------------
  // The idle level
  // ---------------------------------------------------------------------------------------

  function At(c: seq<bool>, level: bool): set<int> {
    set i | 0 <= i < |c| && c[i] == level
  }

  lemma {:induction false} OnesAreHighs(c: seq<bool>)
    ensures |At(c, true)| == Ones(c) && |At(c, false)| == |c| - Ones(c)
  {
    if c != [] {
      var n := |c| - 1;
      OnesAreHighs(c[..n]);
      assert At(c, c[n]) == At(c[..n], c[n]) + {n};
      assert At(c, !c[n]) == At(c[..n], !c[n]);
    }
  }

  /** On every channel the line is taken to idle high exactly when more samples are high than low. */
  lemma {:induction false} IdleExactly(channel: seq<bool>, sampleRate: int)
    ensures Inferred(channel, sampleRate).idleHigh <==> |At(channel, true)| > |At(channel, false)|
  {
    hide EstimateBitPeriod, Edges, Nearest, Candidates, FramingScore, Confidence;
    OnesAreHighs(channel);
  }

  lemma {:induction false} OnesConcat(a: seq<bool>, b: seq<bool>)
    ensures Ones(a + b) == Ones(a) + Ones(b)
  {
    if b == [] {
      assert a + b == a;
    } else {
      var n := |b| - 1;
      assert (a + b)[..|a + b| - 1] == a + b[..n];
      OnesConcat(a, b[..n]);
    }
  }

  lemma {:induction false} OnesFill(level: bool, n: nat)
    ensures Ones(Fill(level, n)) == if level then n else 0
  {
    if n > 0 {
      assert Fill(level, n)[..n - 1] == Fill(level, n - 1);
      OnesFill(level, n - 1);
    }
  }

  lemma {:induction false} OnesStretch(levels: seq<bool>, cell: nat)
    ensures Ones(Stretch(levels, cell)) == Ones(levels) * cell
  {
    if levels != [] {
      var n := |levels| - 1;
      OnesStretch(levels[..n], cell);
      OnesConcat(Stretch(levels[..n], cell), Fill(levels[n], cell));
      OnesFill(levels[n], cell);
      MulSucc(Ones(levels[..n]), cell);
    }
  }

  /** The ones among the data and parity bits of a frame: an even parity bit makes their number
      even, an odd one makes it odd. */
  function FrameOnes(byte: int, format: Format): nat {
    var ones := |set i | 0 <= i < format.dataBits && Bit(byte, i)|;
    match format.parity
    case NoParity => ones
    case EvenParity => if ones % 2 == 0 then ones else ones + 1
    case OddParity => if ones % 2 == 0 then ones + 1 else ones
  }

  function PayloadOnes(payload: seq<int>, format: Format): nat {
    if payload == [] then 0
    else PayloadOnes(payload[..|payload| - 1], format) + FrameOnes(payload[|payload| - 1], format)
  }

  /** The start bit, the data bits and the parity bit, if there is one. */
  function BitCells(format: Format): nat {
    1 + format.dataBits + (if format.parity == NoParity then 0 else 1)
  }

  /** The stop bits and the idle gap behind them. */
  function RestCells(format: Format): nat {
    Max(0, Round(format.stopBits)) + 3
  }

  lemma {:induction false} ParityOnes(data: seq<bool>, parity: Parity)
    ensures var levels, ones := ParityLevels(data, parity), Ones(data);
      && |levels| == (if parity == NoParity then 0 else 1)
      && Ones(data) + Ones(levels) == match parity
                                      case NoParity => ones
                                      case EvenParity => if ones % 2 == 0 then ones else ones + 1
                                      case OddParity => if ones % 2 == 0 then ones + 1 else ones
  {
    var levels := ParityLevels(data, parity);
    if parity != NoParity {
      assert levels[..0] == [];
      assert Ones(levels) == if levels[0] then 1 else 0;
    }
  }

  lemma {:induction false} CellOnes(byte: int, format: Format)
    ensures |FrameCell(byte, format)| == BitCells(format) + RestCells(format)
    ensures Ones(FrameCell(byte, format)) == FrameOnes(byte, format) + RestCells(format)
  {
    hide Bit, Round, ParityLevels, Ones;
    var data, rest := BitsLsb(byte, format.dataBits), Fill(true, RestCells(format));
    var parity := ParityLevels(data, format.parity);
    ParityOnes(data, format.parity);
    assert FrameCell(byte, format) == [false] + data + parity + rest;
    OnesConcat([false] + data + parity, rest);
    OnesConcat([false] + data, parity);
    OnesConcat([false], data);
    OnesFill(true, RestCells(format));
    OnesFill(false, 1);
    assert [false] == Fill(false, 1);
    OnesAreHighs(data);
    assert At(data, true) == set i | 0 <= i < format.dataBits && Bit(byte, i);
  }

  lemma {:induction false} CellsOnes(payload: seq<int>, format: Format)
    ensures |FrameCells(payload, format)| == |payload| * (BitCells(format) + RestCells(format))
    ensures Ones(FrameCells(payload, format)) == PayloadOnes(payload, format) + |payload| * RestCells(format)
  {
    hide FrameCell, FrameOnes, BitCells, RestCells, Ones;
    if payload == [] {
      OnesFill(true, 0);
    } else {
      var n := |payload| - 1;
      CellsOnes(payload[..n], format);
      CellOnes(payload[n], format);
      OnesConcat(FrameCells(payload[..n], format), FrameCell(payload[n], format));
      MulSucc(n, BitCells(format) + RestCells(format));
      MulSucc(n, RestCells(format));
    }
  }

  lemma {:induction false} LineOnes(payload: seq<int>, format: Format)
    ensures |LineLevels(payload, format)| == |payload| * (BitCells(format) + RestCells(format)) + 8
    ensures Ones(LineLevels(payload, format)) == PayloadOnes(payload, format) + |payload| * RestCells(format) + 8
  {
    hide FrameCells, PayloadOnes, Ones, BitCells, RestCells;
    CellsOnes(payload, format);
    OnesConcat(Fill(true, 4) + FrameCells(payload, format), Fill(true, 4));
    OnesConcat(Fill(true, 4), FrameCells(payload, format));
    OnesFill(true, 4);
  }

  lemma {:induction false} StretchedMajority(levels: seq<bool>, cell: nat)
    requires cell >= 1
    ensures IdleHigh(Stretch(levels, cell)) <==> 2 * Ones(levels) > |levels|
  {
    hide Stretch, Ones;
    OnesStretch(levels, cell);
    StretchLength(levels, cell);
    ScaledOrder(2 * Ones(levels), |levels|, cell);
    assert 2 * (Ones(levels) * cell) == 2 * Ones(levels) * cell;
  }

  lemma ScaledOrder(x: int, y: int, c: int)
    requires c >= 1
    ensures x * c > y * c <==> x > y
  {
    if x > y {
      MulMonotone(y + 1, x, c);
      MulSucc(y, c);
    } else {
      MulMonotone(x, y, c);
    }
  }

  /** A generated capture idles high. It is recognised as such exactly when its high cells, the
      lead and trail among them, outnumber its low ones: a closed form in the ones of its frames. */
  lemma {:induction false} IdleOfCapture(g: Generator)
    requires g.Signal().Ok?
    ensures var payload := if g.payload == [] then [0x55] else g.payload;
      var ones, n := PayloadOnes(payload, g.format), |payload|;
      Inferred(g.Signal().value, g.sampleRate).idleHigh
      <==> ones + n * RestCells(g.format) + 8 > n * BitCells(g.format) - ones
  {
    hide EstimateBitPeriod, Edges, Nearest, Candidates, FramingScore, Confidence, IdleHigh, LineLevels, PayloadOnes,
      Round, Ones, BitCells, RestCells;
    var n := |g.Payload()|;
    LineOnes(g.Payload(), g.format);
    assert n * (BitCells(g.format) + RestCells(g.format)) == n * BitCells(g.format) + n * RestCells(g.format);
    StretchedMajority(LineLevels(g.Payload(), g.format), Round(g.sampleRate as real / g.baud as real));
  }

  /** Twice the set bits and eight must exceed five for every byte of an 8N1 capture; two zero
      bytes already turn the idle level around. */
  lemma {:induction false} IdleOfEightNOne(g: Generator)
    requires g.format == EIGHT_N_ONE && g.Signal().Ok?
    ensures Inferred(g.Signal().value, g.sampleRate).idleHigh
       <==> 2 * PayloadOnes(g.Payload(), EIGHT_N_ONE) + 8 > 5 * |g.Payload()|
    ensures g.payload == [0, 0] ==> !Inferred(g.Signal().value, g.sampleRate).idleHigh
  {
    hide Inferred, Generator.Signal, PayloadOnes;
    IdleOfCapture(g);
    assert Round(1.0) == 1;
    assert BitCells(EIGHT_N_ONE) == 9 && RestCells(EIGHT_N_ONE) == 4;
    NoOnes();
  }

  lemma {:induction false} NoOnes()
    ensures PayloadOnes([0, 0], EIGHT_N_ONE) == 0
  {
    forall i: nat ensures !Bit(0, i) {
      ZeroBit(i);
    }
    assert (set i | 0 <= i < 8 && Bit(0, i)) == {};
    assert [0, 0][..1] == [0] && [0][..0] == [];
  }

  // ---------------------------------------------------------------------------------------
  // The framing score
  // ---------------------------------------------------------------------------------------

  /** The run lies less than 15 percent of a bit off some whole number of bits. */
  ghost predicate NearWholeBits(run: nat, bitPeriod: real) {
    exists m: int :: m >= 1 && Within(run, m, bitPeriod)
  }

  ghost predicate Within(run: nat, m: int, bitPeriod: real) {
    -0.15 * bitPeriod < run as real - m as real * bitPeriod < 0.15 * bitPeriod
  }

  lemma Percent(x: real, c: real, p: real)
    requires c > 0.0 && p == x * c
    ensures x < 0.15 <==> p < 0.15 * c
    ensures -0.15 < x <==> -0.15 * c < p
  {
    assert (x - 0.15) * c == p - 0.15 * c;
    assert (-0.15 - x) * c == -0.15 * c - p;
    SignOf(x - 0.15, c);
    SignOf(-0.15 - x, c);
  }

  lemma FramingErrorTimes(run: nat, m: int, bitPeriod: real)
    requires bitPeriod > 0.0
    ensures FramingError(run, m, bitPeriod) < 0.15 <==> Within(run, m, bitPeriod)
  {
    var x := run as real - m as real * bitPeriod;
    assert (Abs(x) / bitPeriod) * bitPeriod == Abs(x);
    Percent(Abs(x) / bitPeriod, bitPeriod, Abs(x));
  }

  lemma WithinIsNearest(run: nat, m: int, bitPeriod: real)
    requires bitPeriod > 0.0 && Within(run, m, bitPeriod)
    ensures Round(run as real / bitPeriod) == m
  {
    var q := run as real / bitPeriod;
    assert q * bitPeriod == run as real;
    Minus(q, m as real, bitPeriod);
    Percent(q - m as real, bitPeriod, run as real - m as real * bitPeriod);
    RoundIs(q, m);
  }

  /** A run scores exactly when it lies within 15 percent of a bit of one bit or more: a run of
      less than half a bit never does, nor one farther from every whole number of bits. */
  lemma {:induction false} CleanExactly(run: nat, bitPeriod: real)
    requires bitPeriod > 0.0
    ensures CleanLength(run, bitPeriod) <==> NearWholeBits(run, bitPeriod)
    ensures run as real <= 0.85 * bitPeriod ==> !NearWholeBits(run, bitPeriod)
  {
    hide Round;
    var nearest := Round(run as real / bitPeriod);
    FramingErrorTimes(run, nearest, bitPeriod);
    if m: int :| m >= 1 && Within(run, m, bitPeriod) {
      WithinIsNearest(run, m, bitPeriod);
      RealMulMonotone(bitPeriod, 1.0, m as real);
    }
  }

  /** The channel keeps its level for exactly this long. */
  ghost predicate Lasts(channel: seq<bool>, start: int, n: nat) {
    && 0 <= start < start + n <= |channel|
    && (forall j :: start <= j < start + n ==> channel[j] == channel[start])
    && (start + n < |channel| ==> channel[start + n] != channel[start])
  }

  lemma {:induction false} RunLasts(channel: seq<bool>, start: nat)
    requires start < |channel|
    ensures Lasts(channel, start, RunLength(channel, start, channel[start]))
    decreases |channel| - start
  {
    if start + 1 < |channel| && channel[start + 1] == channel[start] {
      RunLasts(channel, start + 1);
    }
  }

  /** A departure from idle at sample `i` that fits the bit grid. */
  ghost predicate Scores(channel: seq<bool>, i: int, bitPeriod: real) {
    exists n: nat :: Lasts(channel, i, n) && NearWholeBits(n, bitPeriod)
  }

  ghost function DeparturesOf(channel: seq<bool>, idleHigh: bool): set<int> {
    set i | 0 <= i < |channel| && IsEdge(channel, i) && channel[i] != idleHigh
  }

  ghost function ScoringAmong(channel: seq<bool>, starts: set<int>, bitPeriod: real): set<int> {
    set i | i in starts && Scores(channel, i, bitPeriod)
  }

  lemma {:induction false} CleanRunScores(channel: seq<bool>, i: nat, bitPeriod: real)
    requires i < |channel| && bitPeriod > 0.0
    ensures CleanRun(channel, i, bitPeriod, channel[i]) <==> Scores(channel, i, bitPeriod)
  {
    hide CleanLength, NearWholeBits, RunLength;
    var n := RunLength(channel, i, channel[i]);
    RunLasts(channel, i);
    CleanExactly(n, bitPeriod);
    if m: nat :| Lasts(channel, i, m) && NearWholeBits(m, bitPeriod) {
      SameLength(channel, i, m, n);
    }
  }

  lemma SameLength(channel: seq<bool>, i: int, m: nat, n: nat)
    requires Lasts(channel, i, m) && Lasts(channel, i, n)
    ensures m == n
  {
  }

  ghost predicate InChannel(channel: seq<bool>, starts: seq<int>) {
    forall k :: 0 <= k < |starts| ==> 0 <= starts[k] < |channel|
  }

  function Members(starts: seq<int>): set<int> {
    set k | 0 <= k < |starts| :: starts[k]
  }

  lemma {:induction false} CountsMembers(channel: seq<bool>, starts: seq<int>, bitPeriod: real, active: bool)
    requires bitPeriod > 0.0 && Ascending(starts) && InChannel(channel, starts)
    requires forall k :: 0 <= k < |starts| ==> channel[starts[k]] == active
    ensures |Members(starts)| == |starts|
    ensures |ScoringAmong(channel, Members(starts), bitPeriod)| == CountClean(channel, starts, bitPeriod, active)
  {
    hide Scores, CleanRun, Members, ScoringAmong;
    if starts == [] {
      NoMembers(channel, starts, bitPeriod);
    } else {
      var n := |starts| - 1;
      CountsMembers(channel, starts[..n], bitPeriod, active);
      CleanRunScores(channel, starts[n], bitPeriod);
      MembersSnoc(starts);
      ScoringSnoc(channel, Members(starts[..n]), starts[n], bitPeriod);
    }
  }

  lemma NoMembers(channel: seq<bool>, starts: seq<int>, bitPeriod: real)
    requires starts == []
    ensures Members(starts) == {} && ScoringAmong(channel, Members(starts), bitPeriod) == {}
  {
  }

  lemma MembersSnoc(starts: seq<int>)
    requires starts != [] && Ascending(starts)
    ensures var n := |starts| - 1;
      Members(starts) == Members(starts[..n]) + {starts[n]} && starts[n] !in Members(starts[..n])
  {
  }

  lemma ScoringSnoc(channel: seq<bool>, before: set<int>, last: int, bitPeriod: real)
    requires last !in before
    ensures |ScoringAmong(channel, before + {last}, bitPeriod)|
         == |ScoringAmong(channel, before, bitPeriod)| + if Scores(channel, last, bitPeriod) then 1 else 0
  {
    hide Scores;
    var old' := ScoringAmong(channel, before, bitPeriod);
    if Scores(channel, last, bitPeriod) {
      assert ScoringAmong(channel, before + {last}, bitPeriod) == old' + {last};
    } else {
      assert ScoringAmong(channel, before + {last}, bitPeriod) == old';
    }
  }

  /** The framing score of any channel is the share of its departures from idle that fit; without a
      bit period or a departure it is zero. */
  lemma {:induction false} FramingExactly(channel: seq<bool>, bitPeriod: real, idleHigh: bool)
    ensures Indexed(Edges(channel))
    ensures var departures := DeparturesOf(channel, idleHigh);
      FramingScore(channel, Edges(channel), bitPeriod, idleHigh)
      == if bitPeriod <= 0.0 || departures == {} then 0.0
         else |ScoringAmong(channel, departures, bitPeriod)| as real / |departures| as real
  {
    EdgesNonNegative(channel);
    if bitPeriod > 0.0 {
      ShareOfDepartures(channel, bitPeriod, idleHigh);
    }
  }

  lemma {:induction false} ShareOfDepartures(channel: seq<bool>, bitPeriod: real, idleHigh: bool)
    requires bitPeriod > 0.0 && Indexed(Edges(channel))
    ensures var departures := DeparturesOf(channel, idleHigh);
      FramingScore(channel, Edges(channel), bitPeriod, idleHigh)
      == if departures == {} then 0.0 else |ScoringAmong(channel, departures, bitPeriod)| as real / |departures| as real
  {
    hide Edges, IndicesOf, CountClean, Scores;
    var edges, starts := Edges(channel), IndicesOf(Edges(channel), !idleHigh);
    EdgesNonNegative(channel);
    EdgesExact(channel);
    DeparturesAreEdges(edges, !idleHigh);
    IndicesExactly(edges, !idleHigh);
    StartsAreDepartures(channel, edges, starts, idleHigh);
    CountsMembers(channel, starts, bitPeriod, !idleHigh);
    assert starts == [] <==> Members(starts) == {} by {
      if starts != [] { assert starts[0] in Members(starts); }
    }
  }

  lemma {:induction false} StartsAreDepartures(channel: seq<bool>, edges: seq<Edge>, starts: seq<int>, idleHigh: bool)
    requires AreEdges(channel, edges)
    requires forall d :: d in starts <==> Edge(d, !idleHigh) in edges
    ensures Members(starts) == DeparturesOf(channel, idleHigh)
    ensures InChannel(channel, starts)
    ensures forall k :: 0 <= k < |starts| ==> channel[starts[k]] == !idleHigh
  {
    forall i ensures i in Members(starts) <==> i in DeparturesOf(channel, idleHigh) {
      assert i in Members(starts) <==> i in starts;
      if i in DeparturesOf(channel, idleHigh) {
        assert IsEdge(channel, Edge(i, !idleHigh).index);
      }
    }
    forall k | 0 <= k < |starts| ensures starts[k] in DeparturesOf(channel, idleHigh) {
      assert starts[k] in Members(starts);
    }
  }

  // ---------------------------------------------------------------------------------------
  // The confidence
  // ---------------------------------------------------------------------------------------

  lemma {:induction false} ScoreIsShare(channel: seq<bool>, starts: seq<int>, bitPeriod: real, active: bool)
    requires bitPeriod > 0.0 && NonNegative(starts)
    ensures CountClean(channel, starts, bitPeriod, active) <= |starts|
  {
    if starts != [] {
      ScoreIsShare(channel, starts[..|starts| - 1], bitPeriod, active);
    }
  }

  lemma {:induction false} ScoreInRange(channel: seq<bool>, edges: seq<Edge>, bitPeriod: real, idleHigh: bool)
    requires Indexed(edges)
    ensures 0.0 <= FramingScore(channel, edges, bitPeriod, idleHigh) <= 1.0
  {
    hide CountClean, IndicesOf;
    if bitPeriod > 0.0 {
      DeparturesAreEdges(edges, !idleHigh);
      var starts := IndicesOf(edges, !idleHigh);
      ScoreIsShare(channel, starts, bitPeriod, !idleHigh);
      if starts != [] {
        Share(CountClean(channel, starts, bitPeriod, !idleHigh), |starts|);
      }
    }
  }

  lemma Share(k: nat, n: nat)
    requires k <= n && n >= 1
    ensures 0.0 <= k as real / n as real <= 1.0
  {
    var q := k as real / n as real;
    assert q * n as real == k as real;
  }

  /** On every channel with a bit period the confidence falls linearly from the framing share's
      half-open band to zero at three percent off the named rate; the clamps never bite. */
  lemma {:induction false} ConfidenceExactly(channel: seq<bool>, sampleRate: int, bitPeriod: real)
    requires EstimateBitPeriod(Edges(channel)) == Some(bitPeriod) && bitPeriod > 0.0
    ensures var estimate := Inferred(channel, sampleRate);
      && estimate.baud > 0 && Indexed(Edges(channel))
      && var error := Abs(estimate.baud as real - sampleRate as real / bitPeriod) / estimate.baud as real;
      && var score := FramingScore(channel, Edges(channel), bitPeriod, estimate.idleHigh);
      && estimate.confidence == (if error >= 0.03 then 0.0 else (1.0 - error / 0.03) * (1.0 + score) / 2.0)
  {
    hide Inferred, EstimateBitPeriod, Edges, FramingScore, Confidence;
    EdgesNonNegative(channel);
    var estimate := Inferred(channel, sampleRate);
    var error, score := InferredParts(channel, sampleRate, bitPeriod);
    ConfidenceIs(error, score);
  }

  lemma {:induction false} InferredParts(channel: seq<bool>, sampleRate: int, bitPeriod: real)
    returns (error: real, score: real)
    requires EstimateBitPeriod(Edges(channel)) == Some(bitPeriod) && bitPeriod > 0.0 && Indexed(Edges(channel))
    ensures var estimate := Inferred(channel, sampleRate);
      && estimate.baud > 0 && estimate.confidence == Confidence(error, score)
      && error == Abs(estimate.baud as real - sampleRate as real / bitPeriod) / estimate.baud as real >= 0.0
      && score == FramingScore(channel, Edges(channel), bitPeriod, estimate.idleHigh)
      && 0.0 <= score <= 1.0
  {
    hide EstimateBitPeriod, Edges, Nearest, FramingScore, IdleHigh, Candidates, Confidence;
    TablePositive();
    assert |Candidates()| >= 1 by { AtLeastOne(); }
    var raw := sampleRate as real / bitPeriod;
    var best := Nearest(Candidates(), raw);
    error, score := RelativeError(best.baud, raw), FramingScore(channel, Edges(channel), bitPeriod, IdleHigh(channel));
    ScoreInRange(channel, Edges(channel), bitPeriod, IdleHigh(channel));
    ErrorNonNegative(best.baud, raw);
  }

  lemma ErrorNonNegative(baud: int, raw: real)
    requires baud > 0
    ensures RelativeError(baud, raw) >= 0.0
  {
  }

  lemma AtLeastOne()
    ensures |Candidates()| >= 1
  {
  }

  lemma ConfidenceIs(error: real, score: real)
    requires error >= 0.0 && 0.0 <= score <= 1.0
    ensures Confidence(error, score) == if error >= 0.03 then 0.0 else (1.0 - error / 0.03) * (1.0 + score) / 2.0
  {
    var margin, half := 1.0 - error / 0.03, 0.5 + 0.5 * score;
    assert Confidence(error, score) == Clamp01((if margin > 0.0 then margin else 0.0) * half);
    if error < 0.03 {
      assert 0.0 < margin <= 1.0;
      InUnit(margin, half);
      assert margin * half == margin * (1.0 + score) / 2.0;
    } else {
      assert margin <= 0.0;
      assert 0.0 * half == 0.0;
    }
  }

  lemma InUnit(x: real, y: real)
    requires 0.0 <= x <= 1.0 && 0.0 <= y <= 1.0
    ensures 0.0 <= x * y <= 1.0
  {
    ProductSign(x, y, x * y);
    ProductSign(x, 1.0 - y, x - x * y);
  }

  lemma ProductSign(x: real, y: real, p: real)
    requires x >= 0.0 && y >= 0.0 && p == x * y
    ensures p >= 0.0
  {
  }

  /** Without two edges, or with edges at one place, there is no estimate. */
  lemma {:induction false} NoPeriodNoRate(channel: seq<bool>, sampleRate: int)
    requires EstimateBitPeriod(Edges(channel)).None?
    ensures var estimate := Inferred(channel, sampleRate);
      estimate.baud == 0 && estimate.format == EIGHT_N_ONE && estimate.confidence == 0.0
  {
  }
}
