/** Exactly when automatic baud detection (src/slidko/measure/uart.py) names the true rate, and
    exactly when generate, infer and decode without parameters return every payload. */
module ExactBaud {
  import opened Numbers
  import opened Results
  import opened Signals
  import opened Uart
  import opened AutoBaud
  import opened InferUart
  import opened UartRoundTrip

  /** How far an estimated bit period misses the exact one of a rate, in samples. */
  function Miss(bitPeriod: real, sampleRate: int, baud: int): real
    requires baud > 0
  {
    Abs(bitPeriod - sampleRate as real / baud as real)
  }

  /** Candidate `i` is the first of those whose exact bit period is nearest to the estimate. */
  ghost predicate SnapsTo(sampleRate: int, bitPeriod: real, i: int)
    requires 0 <= i < |Candidates()| && PositiveRates(Candidates())
  {
    forall j :: 0 <= j < |Candidates()| && j != i ==>
      var here := Miss(bitPeriod, sampleRate, Candidates()[i].baud);
      var there := Miss(bitPeriod, sampleRate, Candidates()[j].baud);
      if j < i then here < there else here <= there
  }

  // ---------------------------------------------------------------------------------------
  // The snap measures bit periods
  // ---------------------------------------------------------------------------------------

  lemma Scaled(x: real, y: real, c: real)
    requires c > 0.0
    ensures Abs(x) * c == Abs(x * c)
    ensures x * c == y * c ==> x == y
  {
  }

  lemma CrossMultiply(e: real, c: real, x: real, p: real, t: real, s: real)
    requires c > 0.0 && p > 0.0
    requires e * c == Abs(c - x) && x * p == s && t * c == s
    ensures e * p == Abs(p - t)
  {
    Scaled(c - x, 0.0, p);
    Scaled(p - t, 0.0, c);
    assert (c - x) * p == (p - t) * c;
    assert (e * p) * c == Abs(p - t) * c;
    Scaled(e * p, Abs(p - t), c);
  }

  /** The relative error of a rate, times the estimate, is how far the estimate misses it. */
  lemma {:induction false} RelativeErrorIsMiss(sampleRate: int, bitPeriod: real, baud: int)
    requires bitPeriod > 0.0 && baud > 0
    ensures RelativeError(baud, sampleRate as real / bitPeriod) * bitPeriod == Miss(bitPeriod, sampleRate, baud)
  {
    hide Abs;
    var s, c := sampleRate as real, baud as real;
    var x, t := s / bitPeriod, s / c;
    var e := RelativeError(baud, x);
    Quotient(Abs(c - x), c, e);
    Quotient(s, bitPeriod, x);
    Quotient(s, c, t);
    CrossMultiply(e, c, x, bitPeriod, t, s);
  }

  lemma ScaleOrder(x: real, y: real, p: real)
    requires p > 0.0
    ensures x < y <==> x * p < y * p
  {
  }

  lemma {:induction false} ErrorsCompareAsMisses(sampleRate: int, bitPeriod: real, a: int, b: int)
    requires bitPeriod > 0.0 && a > 0 && b > 0
    ensures var raw := sampleRate as real / bitPeriod;
      RelativeError(a, raw) < RelativeError(b, raw) <==> Miss(bitPeriod, sampleRate, a) < Miss(bitPeriod, sampleRate, b)
  {
    hide RelativeError, Miss;
    var raw := sampleRate as real / bitPeriod;
    RelativeErrorIsMiss(sampleRate, bitPeriod, a);
    RelativeErrorIsMiss(sampleRate, bitPeriod, b);
    ScaleOrder(RelativeError(a, raw), RelativeError(b, raw), bitPeriod);
  }

  // ---------------------------------------------------------------------------------------
  // The first minimum
  // ---------------------------------------------------------------------------------------

  /** No earlier candidate has as small an error, no later one a smaller. */
  ghost predicate IsFirst(cs: seq<Candidate>, raw: real, k: int)
    requires PositiveRates(cs) && 0 <= k < |cs|
  {
    forall j :: 0 <= j < |cs| && j != k ==>
      if j < k then RelativeError(cs[k].baud, raw) < RelativeError(cs[j].baud, raw)
      else RelativeError(cs[k].baud, raw) <= RelativeError(cs[j].baud, raw)
  }

  lemma {:induction false} NearestIsFirst(cs: seq<Candidate>, raw: real) returns (k: int)
    requires cs != [] && PositiveRates(cs)
    ensures 0 <= k < |cs| && Nearest(cs, raw) == cs[k] && IsFirst(cs, raw, k)
  {
    hide RelativeError;
    var n := |cs| - 1;
    if n == 0 {
      k := 0;
    } else {
      k := NearestIsFirst(cs[..n], raw);
      var best := Nearest(cs[..n], raw);
      if RelativeError(cs[n].baud, raw) < RelativeError(best.baud, raw) {
        forall j | 0 <= j < n ensures RelativeError(cs[n].baud, raw) < RelativeError(cs[j].baud, raw) {
          assert cs[..n][j] == cs[j];
        }
        k := n;
      } else {
        forall j | 0 <= j < n && j != k
          ensures if j < k then RelativeError(cs[k].baud, raw) < RelativeError(cs[j].baud, raw)
                  else RelativeError(cs[k].baud, raw) <= RelativeError(cs[j].baud, raw)
        {
          assert cs[..n][j] == cs[j];
        }
      }
    }
  }

  lemma {:induction false} FirstIsUnique(cs: seq<Candidate>, raw: real, i: int, k: int)
    requires PositiveRates(cs) && 0 <= i < |cs| && 0 <= k < |cs|
    requires IsFirst(cs, raw, i) && IsFirst(cs, raw, k)
    ensures i == k
  {
    hide RelativeError, IsFirst;
    if i != k {
      FirstBeats(cs, raw, i, k);
      FirstBeats(cs, raw, k, i);
    }
  }

  lemma FirstBeats(cs: seq<Candidate>, raw: real, k: int, j: int)
    requires PositiveRates(cs) && 0 <= k < |cs| && 0 <= j < |cs| && j != k && IsFirst(cs, raw, k)
    ensures if j < k then RelativeError(cs[k].baud, raw) < RelativeError(cs[j].baud, raw)
            else RelativeError(cs[k].baud, raw) <= RelativeError(cs[j].baud, raw)
  {
    hide RelativeError;
  }

  lemma {:induction false} FirstIsSnap(sampleRate: int, bitPeriod: real, i: int)
    requires bitPeriod > 0.0 && PositiveRates(Candidates()) && 0 <= i < |Candidates()|
    ensures IsFirst(Candidates(), sampleRate as real / bitPeriod, i) <==> SnapsTo(sampleRate, bitPeriod, i)
  {
    hide Candidates, RelativeError, Miss;
    var cs := Candidates();
    forall j | 0 <= j < |cs|
      ensures RelativeError(cs[i].baud, sampleRate as real / bitPeriod)
          < RelativeError(cs[j].baud, sampleRate as real / bitPeriod)
         <==> Miss(bitPeriod, sampleRate, cs[i].baud) < Miss(bitPeriod, sampleRate, cs[j].baud)
      ensures RelativeError(cs[j].baud, sampleRate as real / bitPeriod)
          < RelativeError(cs[i].baud, sampleRate as real / bitPeriod)
         <==> Miss(bitPeriod, sampleRate, cs[j].baud) < Miss(bitPeriod, sampleRate, cs[i].baud)
    {
      ErrorsCompareAsMisses(sampleRate, bitPeriod, cs[i].baud, cs[j].baud);
      ErrorsCompareAsMisses(sampleRate, bitPeriod, cs[j].baud, cs[i].baud);
    }
  }

  lemma {:induction false} StandardRises(i: nat, j: nat)
    requires i < j < |STANDARD_BAUDS|
    ensures STANDARD_BAUDS[i] < STANDARD_BAUDS[j]
    decreases j - i
  {
    if i + 1 < j {
      StandardRises(i, j - 1);
      StandardRises(j - 1, j);
    }
  }

  /** No two candidates have the same rate. */
  lemma {:induction false} RatesDiffer(i: int, j: int)
    requires 0 <= i < j < |Candidates()|
    ensures Candidates()[i].baud != Candidates()[j].baud
  {
    if j < |STANDARD_BAUDS| {
      StandardRises(i, j);
    } else {
      assert STANDARD_BAUDS[i] in STANDARD_BAUDS;
      assert SBUS_BAUD !in STANDARD_BAUDS;
    }
  }

  // ---------------------------------------------------------------------------------------
  // Exactly when the rate is named
  // ---------------------------------------------------------------------------------------

  /** On any channel, whatever period is estimated, the inference names a rate of the table
      exactly when its bit period is the first of those nearest to the estimate. */
  lemma {:induction false} NamedExactly(channel: seq<bool>, sampleRate: int, bitPeriod: real, i: int)
    requires 0 <= i < |Candidates()| && PositiveRates(Candidates())
    requires EstimateBitPeriod(Edges(channel)) == Some(bitPeriod) && bitPeriod > 0.0
    ensures Inferred(channel, sampleRate).baud == Candidates()[i].baud <==> SnapsTo(sampleRate, bitPeriod, i)
    ensures SnapsTo(sampleRate, bitPeriod, i) ==> Inferred(channel, sampleRate).format == Candidates()[i].format
  {
    hide Candidates, Nearest, EstimateBitPeriod, Edges, FramingScore, IdleHigh, IsFirst, SnapsTo;
    var raw := sampleRate as real / bitPeriod;
    var k := NearestIsFirst(Candidates(), raw);
    FirstIsSnap(sampleRate, bitPeriod, i);
    if IsFirst(Candidates(), raw, i) {
      FirstIsUnique(Candidates(), raw, i, k);
    } else if i != k {
      RatesDiffer(Min(i, k), Max(i, k));
    }
  }

  /** On a generated capture with a lone bit the inference names the true rate exactly when the
      rounded bit period snaps to it; then it gives the table's format for that rate, with a
      confidence that falls short of 1 by at most 50/3 parts of the sampling grid. */
  lemma {:induction false} BaudExactly(g: Generator, i: int)
    requires 0 <= i < |Candidates()| && PositiveRates(Candidates()) && g.baud == Candidates()[i].baud
    requires Round(g.sampleRate as real / g.baud as real) >= 1
    requires SomeLoneBit(g.Payload(), g.format)
    ensures g.Signal().Ok?
    ensures var bitSamples := Round(g.sampleRate as real / g.baud as real);
      var estimate := Inferred(g.Signal().value, g.sampleRate);
      && (estimate.baud == g.baud <==> SnapsTo(g.sampleRate, bitSamples as real, i))
      && (estimate.baud == g.baud ==> estimate.format == Candidates()[i].format)
      && (estimate.baud == g.baud ==> estimate.confidence >= 1.0 - 50.0 / (3.0 * bitSamples as real))
  {
    hide Candidates, LineLevels, SomeLoneBit, EstimateBitPeriod, Edges, Round, Inferred, SnapsTo, Stretch;
    PayloadPeriodExactly(g);
    NamedExactly(g.Signal().value, g.sampleRate, Round(g.sampleRate as real / g.baud as real) as real, i);
    if Inferred(g.Signal().value, g.sampleRate).baud == g.baud {
      CaptureFraming(g);
      NamedConfidence(g.Signal().value, g.sampleRate, g.baud, Round(g.sampleRate as real / g.baud as real));
    }
  }

  lemma {:induction false} NamedConfidence(channel: seq<bool>, sampleRate: int, baud: int, bitSamples: int)
    requires baud > 0 && bitSamples >= 1 && bitSamples == Round(sampleRate as real / baud as real)
    requires EstimateBitPeriod(Edges(channel)) == Some(bitSamples as real)
    requires Indexed(Edges(channel))
    requires FramingScore(channel, Edges(channel), bitSamples as real, IdleHigh(channel)) == 1.0
    requires Inferred(channel, sampleRate).baud == baud
    ensures Inferred(channel, sampleRate).confidence >= 1.0 - 50.0 / (3.0 * bitSamples as real)
  {
    hide EstimateBitPeriod, Edges, IdleHigh, Nearest, Candidates, FramingScore, Confidence, RelativeError;
    RawRate(sampleRate, baud, bitSamples);
    ConfidenceBound(baud, sampleRate as real / bitSamples as real, bitSamples as real);
  }

  /** From 13 samples per bit on, every rate of the table snaps to itself. */
  lemma {:induction false} ThirteenSamplesSnap(sampleRate: int, i: int)
    requires 0 <= i < |Candidates()| && PositiveRates(Candidates())
    requires Round(sampleRate as real / Candidates()[i].baud as real) >= 13
    ensures SnapsTo(sampleRate, Round(sampleRate as real / Candidates()[i].baud as real) as real, i)
  {
    hide Candidates, Nearest, IsFirst, SnapsTo, Round;
    var baud := Candidates()[i].baud;
    var bitSamples := Round(sampleRate as real / baud as real);
    var raw := sampleRate as real / bitSamples as real;
    assert Candidates()[i] in Candidates();
    CandidatesAreTheTable(Candidates()[i]);
    RawRate(sampleRate, baud, bitSamples);
    CoarserThan(baud as real, bitSamples as real);
    SnapIsExact(baud, raw);
    var k := NearestIsFirst(Candidates(), raw);
    if i != k {
      RatesDiffer(Min(i, k), Max(i, k));
    }
    FirstIsSnap(sampleRate, bitSamples as real, i);
  }

  // ---------------------------------------------------------------------------------------
  // Exactly when no parameters are needed
  // ---------------------------------------------------------------------------------------

  /** Generate 8N1, infer, decode with what was inferred: the payload's own events come back. */
  ghost predicate Recovers(sampleRate: int, baud: int, payload: seq<int>) {
    var g := Generator(baud, payload, EIGHT_N_ONE, sampleRate);
    g.Signal().Ok? &&
    var estimate := Inferred(g.Signal().value, sampleRate);
    Decoded(g.Signal().value, sampleRate, estimate.baud, estimate.format)
    == Ok(PayloadEvents(g.Payload(), sampleRate as real / baud as real, Round(sampleRate as real / baud as real)))
  }

  ghost predicate LoneBitPayload(payload: seq<int>) {
    payload != [] && SomeLoneBit(payload, EIGHT_N_ONE)
  }

  lemma {:induction false} OneAndTwoAreLone()
    ensures LoneBitPayload([1]) && LoneBitPayload([2])
  {
    OddByteHasLoneBit(1, EIGHT_N_ONE);
    assert [1][0] == 1;
    TwoIsLone();
    assert [2][0] == 2;
  }

  lemma {:induction false} TwoIsLone()
    ensures HasLoneBit(2, EIGHT_N_ONE)
  {
    EightNOneCell(2);
    BitZero(2);
    BitHalf(2, 0);
    BitZero(1);
    BitHalf(2, 1);
    UpperBitsOfOne(1);
    var cell := FrameCell(2, EIGHT_N_ONE);
    assert !cell[1] && cell[2] && !cell[3];
    assert LoneCell([true] + cell, 3);
  }

  /** With the right rate named, recovering is the plain round trip. */
  lemma {:induction false} NamedRecovers(sampleRate: int, baud: int, payload: seq<int>, i: int)
    requires 0 <= i < |STANDARD_BAUDS| && baud == STANDARD_BAUDS[i]
    requires PositiveRates(Candidates()) && LoneBitPayload(payload)
    requires Round(sampleRate as real / baud as real) >= 1
    requires SnapsTo(sampleRate, Round(sampleRate as real / baud as real) as real, i)
    ensures Recovers(sampleRate, baud, payload) <==> RoundTrips(sampleRate, baud, payload)
  {
    var g := Generator(baud, payload, EIGHT_N_ONE, sampleRate);
    assert Candidates()[i] == Candidate(baud, EIGHT_N_ONE);
    hide SnapsTo, Candidates, Inferred, Decoded, PayloadEvents, LineLevels, SomeLoneBit, Round, Stretch;
    BaudExactly(g, i);
  }

  /** Decoding with another period ends the first frame elsewhere, or misreads it. */
  lemma {:induction false} WrongPeriodFails(sampleRate: int, baud: int, other: int, payload: seq<int>)
    requires baud > 0 && other > 0 && (Apart(baud, other) || Apart(other, baud))
    requires payload == [2]
    requires Generator(baud, payload, EIGHT_N_ONE, sampleRate).Signal().Ok?
    ensures var bitPeriod, bitSamples := sampleRate as real / baud as real, Round(sampleRate as real / baud as real);
      Decoded(Line(payload, bitSamples), sampleRate, other, EIGHT_N_ONE)
        != Ok(PayloadEvents(payload, bitPeriod, bitSamples))
  {
    var bitPeriod, wrong := sampleRate as real / baud as real, sampleRate as real / other as real;
    hide Line, Scan, PayloadEvents, Round;
    if wrong >= 1.0 {
      RatesToPeriods(sampleRate, baud, other);
      WrongScanFails(payload, bitPeriod, wrong);
    }
  }

  lemma {:induction false} RatesToPeriods(sampleRate: int, baud: int, other: int)
    requires baud > 0 && other > 0 && (Apart(baud, other) || Apart(other, baud))
    requires Round(sampleRate as real / baud as real) >= 1 && sampleRate as real / other as real >= 1.0
    ensures var t, u := sampleRate as real / baud as real, sampleRate as real / other as real;
      u >= 1.085 * t || t >= 1.085 * u
  {
    var t, u := sampleRate as real / baud as real, sampleRate as real / other as real;
    Quotient(sampleRate as real, baud as real, t);
    Quotient(sampleRate as real, other as real, u);
    AtLeastHalf(t);
    PeriodsApart(sampleRate as real, baud as real, other as real, t, u);
  }

  lemma {:induction false} WrongScanFails(payload: seq<int>, bitPeriod: real, wrong: real)
    requires payload == [2] && Round(bitPeriod) >= 1 && wrong >= 1.0
    requires wrong >= 1.085 * bitPeriod || bitPeriod >= 1.085 * wrong
    ensures Scan(Line(payload, Round(bitPeriod)), 1, wrong) != PayloadEvents(payload, bitPeriod, Round(bitPeriod))
  {
    hide Line, Scan, PayloadEvents, Round;
    if Scan(Line(payload, Round(bitPeriod)), 1, wrong) == PayloadEvents(payload, bitPeriod, Round(bitPeriod)) {
      SameEnd(payload, bitPeriod, wrong, Round(bitPeriod));
      AtLeastHalf(bitPeriod);
      CloseEndsAreCoarse(bitPeriod, wrong);
      OneSamplePerBitFails(payload, wrong, bitPeriod, Round(bitPeriod));
      assert false;
    }
  }

  lemma AtLeastHalf(t: real)
    requires Round(t) >= 1
    ensures t >= 0.5
  {
  }

  /** Equal first events end at the same sample. */
  lemma {:induction false} SameEnd(payload: seq<int>, bitPeriod: real, wrong: real, bitSamples: nat)
    requires payload == [2] && wrong >= 1.0
    requires Scan(Line(payload, bitSamples), 1, wrong) == PayloadEvents(payload, bitPeriod, bitSamples)
    ensures Round(wrong * 10.0) == Round(bitPeriod * 10.0)
  {
    var events := Scan(Line(payload, bitSamples), 1, wrong);
    ScanIsFaithful(Line(payload, bitSamples), 1, wrong);
    assert |PayloadEvents(payload, bitPeriod, bitSamples)| == 1;
    assert events[0] in events;
    assert events[0] == FrameEvent(2, 0, bitPeriod, bitSamples);
    assert wrong * (8 + 2) as real == wrong * 10.0;
  }

  lemma PeriodsApart(s: real, b: real, c: real, t: real, u: real)
    requires b > 0.0 && c > 0.0 && t * b == s && u * c == s && t >= 0.5 && u >= 1.0
    requires b >= 1.085 * c || c >= 1.085 * b
    ensures u >= 1.085 * t || t >= 1.085 * u
  {
    if b >= 1.085 * c {
      LongerPeriod(s, b, c, t, u);
    } else {
      LongerPeriod(s, c, b, u, t);
    }
  }

  lemma LongerPeriod(s: real, b: real, c: real, t: real, u: real)
    requires b > 0.0 && c > 0.0 && t * b == s && u * c == s && t > 0.0 && b >= 1.085 * c
    ensures u >= 1.085 * t
  {
    RealMulMonotone(t, 1.085 * c, b);
    assert (1.085 * t) * c <= u * c;
    ScaleOrder(u, 1.085 * t, c);
  }

  /** Periods 8.5 percent apart whose frames end together are those of about one sample. */
  lemma CloseEndsAreCoarse(t: real, u: real)
    requires t >= 0.5 && u >= 1.0 && Round(t) >= 1 && Round(u * 10.0) == Round(t * 10.0)
    requires u >= 1.085 * t || t >= 1.085 * u
    ensures Round(t) == 1 && Round(u * 1.5) == 2
  {
    assert -1.0 <= u * 10.0 - t * 10.0 <= 1.0;
  }

  /** Every payload with a lone bit is recovered without any parameter exactly when the sampling
      points fit and the rounded bit period snaps to the rate: two conditions on the rates. */
  lemma {:induction false} UnaidedExactly(sampleRate: int, baud: int, i: int)
    requires 0 <= i < |STANDARD_BAUDS| && baud == STANDARD_BAUDS[i] && PositiveRates(Candidates())
    ensures (forall payload :: LoneBitPayload(payload) ==> Recovers(sampleRate, baud, payload))
       <==> RatesAgree(sampleRate, baud) && SnapsTo(sampleRate, Round(sampleRate as real / baud as real) as real, i)
  {
    hide SnapsTo, LoneBitPayload, Recovers, RatesAgree, RoundTrips;
    OneAndTwoAreLone();
    if RatesAgree(sampleRate, baud) && SnapsTo(sampleRate, Round(sampleRate as real / baud as real) as real, i) {
      AtLeastTwo(sampleRate, baud);
      forall payload | LoneBitPayload(payload) ensures Recovers(sampleRate, baud, payload) {
        NamedRecovers(sampleRate, baud, payload, i);
        AlignedRoundTrip(sampleRate, baud, payload);
      }
    }
    if forall payload :: LoneBitPayload(payload) ==> Recovers(sampleRate, baud, payload) {
      assert Recovers(sampleRate, baud, [1]) && Recovers(sampleRate, baud, [2]);
      RecoveredSnaps(sampleRate, baud, [2], i);
      NamedRecovers(sampleRate, baud, [1], i);
      NamedRecovers(sampleRate, baud, [2], i);
      TwoPayloadsDecide(sampleRate, baud);
    }
  }

  /** From 13 samples per bit on, every payload with a lone bit is recovered without parameters. */
  lemma {:induction false} ThirteenSamplesSuffice(sampleRate: int, i: int, payload: seq<int>)
    requires 0 <= i < |STANDARD_BAUDS| && PositiveRates(Candidates()) && STANDARD_BAUDS[i] > 0
    requires Round(sampleRate as real / STANDARD_BAUDS[i] as real) >= 13 && LoneBitPayload(payload)
    ensures Recovers(sampleRate, STANDARD_BAUDS[i], payload)
  {
    assert Candidates()[i] == Candidate(STANDARD_BAUDS[i], EIGHT_N_ONE);
    hide SnapsTo, LoneBitPayload, Recovers, RoundTrips, Candidates, Round, STANDARD_BAUDS;
    ThirteenSamplesSnap(sampleRate, i);
    TenSamplesSuffice(sampleRate as real / STANDARD_BAUDS[i] as real);
    UnaidedExactly(sampleRate, STANDARD_BAUDS[i], i);
  }

  lemma AtLeastTwo(sampleRate: int, baud: int)
    requires RatesAgree(sampleRate, baud)
    ensures Round(sampleRate as real / baud as real) >= 2
  {
  }

  lemma {:induction false} RecoveredSnaps(sampleRate: int, baud: int, payload: seq<int>, i: int)
    requires 0 <= i < |STANDARD_BAUDS| && baud == STANDARD_BAUDS[i] && PositiveRates(Candidates())
    requires payload == [2] && LoneBitPayload(payload) && Recovers(sampleRate, baud, payload)
    ensures Round(sampleRate as real / baud as real) >= 1
    ensures SnapsTo(sampleRate, Round(sampleRate as real / baud as real) as real, i)
  {
    var g := Generator(baud, payload, EIGHT_N_ONE, sampleRate);
    assert Candidates()[i] == Candidate(baud, EIGHT_N_ONE);
    hide SnapsTo, Candidates, PayloadEvents, LineLevels, SomeLoneBit, Round, Stretch, Scan;
    BaudExactly(g, i);
    var estimate := Inferred(g.Signal().value, sampleRate);
    if estimate.baud != baud {
      NamedInTable(g.Signal().value, sampleRate);
      RateInTable(i);
      if estimate.baud > 0 {
        TableApart(Min(baud, estimate.baud), Max(baud, estimate.baud));
        WrongPeriodFails(sampleRate, baud, estimate.baud, payload);
      }
      assert false;
    }
  }

  lemma {:induction false} RateInTable(i: int)
    requires 0 <= i < |STANDARD_BAUDS|
    ensures InTable(STANDARD_BAUDS[i])
  {
  }

  /** What is inferred is a rate of the table with its format, or no rate at all. */
  lemma {:induction false} NamedInTable(channel: seq<bool>, sampleRate: int)
    ensures var estimate := Inferred(channel, sampleRate);
      estimate.baud == 0 || (estimate.baud > 0 && InTable(estimate.baud) && estimate.format == FormatOf(estimate.baud))
  {
    assert Candidates() != [];
    hide Candidates, Nearest, EstimateBitPeriod, Edges, FramingScore, IdleHigh;
    TablePositive();
    var period := EstimateBitPeriod(Edges(channel));
    if period.Some? && period.value > 0.0 {
      CandidatesAreTheTable(Nearest(Candidates(), sampleRate as real / period.value));
    }
  }
}
