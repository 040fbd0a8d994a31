/** I2C: the bit-banging builder (tests/synth.py) and the structural START/STOP detector
    (src/slidko/measure/i2c.py); START and STOP are those of section 3.1.4 of NXP UM10204. */
module I2c {
  import opened Numbers
  import opened Results
  import opened Signals

  // ---------------------------------------------------------------------------------------
  // Builder
  // ---------------------------------------------------------------------------------------

  /** Both lines held for a number of samples (none, when the count is not positive). */
  datatype Phase = Phase(scl: bool, sda: bool, count: int)

  /** A call on the builder. */
  datatype Call =
    | Idle(samples: int)
    | Start
    | DataBit(level: bool)
    | Byte(value: int, ack: bool, stretch: int)
    | Stop

  function BitPhases(value: bool, q: int): seq<Phase> {
    [Phase(false, value, q), Phase(true, value, q * 2), Phase(false, value, q)]
  }

  function BitsPhases(bits: seq<bool>, q: int): seq<Phase> {
    if bits == [] then []
    else BitsPhases(bits[..|bits| - 1], q) + BitPhases(bits[|bits| - 1], q)
  }

  function Phases(call: Call, q: int): seq<Phase> {
    match call
    case Idle(samples) => [Phase(true, true, samples)]
    case Start => [Phase(true, true, q), Phase(true, false, q), Phase(false, false, q * 2)]
    case DataBit(value) => BitPhases(value, q)
    case Byte(value, ack, stretch) =>
      BitsPhases(BitsMsb(value, 8) + [!ack], q) + (if stretch != 0 then [Phase(false, false, stretch)] else [])
    case Stop => [Phase(false, false, q), Phase(true, false, q * 2), Phase(true, true, q)]
  }

  function Script(calls: seq<Call>, q: int): seq<Phase> {
    if calls == [] then [] else Script(calls[..|calls| - 1], q) + Phases(calls[|calls| - 1], q)
  }

  function SclOf(phases: seq<Phase>): seq<Segment> {
    seq(|phases|, i requires 0 <= i < |phases| => Segment(phases[i].scl, phases[i].count))
  }

  function SdaOf(phases: seq<Phase>): seq<Segment> {
    seq(|phases|, i requires 0 <= i < |phases| => Segment(phases[i].sda, phases[i].count))
  }

  class I2CBuilder {
    const q: int
    var sclSegments: seq<Segment>
    var sdaSegments: seq<Segment>

    /** Everything emitted so far. */
    ghost var phases: seq<Phase>

    ghost predicate Valid()
      reads this
    {
      sclSegments == SclOf(phases) && sdaSegments == SdaOf(phases)
    }

    constructor (quarterPeriod: int)
      ensures Valid() && q == quarterPeriod && phases == []
    {
      q := quarterPeriod;
      sclSegments := [];
      sdaSegments := [];
      phases := [];
    }

    /** `_emit`. */
    method Emit(scl: bool, sda: bool, samples: int)
      requires Valid()
      modifies this
      ensures Valid() && phases == old(phases) + [Phase(scl, sda, samples)]
    {
      sclSegments := sclSegments + [Segment(scl, samples)];
      sdaSegments := sdaSegments + [Segment(sda, samples)];
      phases := phases + [Phase(scl, sda, samples)];
    }

    method Idle(samples: int)
      requires Valid()
      modifies this
      ensures Valid() && phases == old(phases) + Phases(Call.Idle(samples), q)
    {
      Emit(true, true, samples);
    }

    method Start()
      requires Valid()
      modifies this
      ensures Valid() && phases == old(phases) + Phases(Call.Start, q)
    {
      Emit(true, true, q);
      Emit(true, false, q);
      Emit(false, false, q * 2);
    }

    method DataBit(value: bool)
      requires Valid()
      modifies this
      ensures Valid() && phases == old(phases) + BitPhases(value, q)
    {
      Emit(false, value, q);
      Emit(true, value, q * 2);
      Emit(false, value, q);
    }

    method Byte(value: int, ack: bool, stretch: int)
      requires Valid()
      modifies this
      ensures Valid() && phases == old(phases) + Phases(Call.Byte(value, ack, stretch), q)
    {
      var bits := BitsMsb(value, 8);
      ghost var before := phases;
      DataBits(bits);
      DataBit(!ack);
      assert (bits + [!ack])[..|bits|] == bits;
      Regroup(before, BitsPhases(bits, q), BitPhases(!ack, q));
      if stretch != 0 {
        Emit(false, false, stretch);
        Regroup(before, BitsPhases(bits + [!ack], q), [Phase(false, false, stretch)]);
      }
    }

    /** The loop of `byte`. */
    method DataBits(bits: seq<bool>)
      requires Valid()
      modifies this
      ensures Valid() && phases == old(phases) + BitsPhases(bits, q)
    {
      ghost var before := phases;
      for i := 0 to |bits|
        invariant Valid() && phases == before + BitsPhases(bits[..i], q)
      {
        assert bits[..i + 1][..i] == bits[..i];
        DataBit(bits[i]);
        Regroup(before, BitsPhases(bits[..i], q), BitPhases(bits[i], q));
      }
      assert bits[..|bits|] == bits;
    }

    method Stop()
      requires Valid()
      modifies this
      ensures Valid() && phases == old(phases) + Phases(Call.Stop, q)
    {
      Emit(false, false, q);
      Emit(true, false, q * 2);
      Emit(true, true, q);
    }

    /** A whole sequence of calls. */
    method Perform(calls: seq<Call>)
      requires Valid() && phases == []
      modifies this
      ensures Valid() && phases == Script(calls, q)
    {
      hide Phases, BitPhases;
      for i := 0 to |calls|
        invariant Valid() && phases == Script(calls[..i], q)
      {
        assert calls[..i + 1][..i] == calls[..i];
        match calls[i] {
          case Idle(samples) => Idle(samples);
          case Start => Start();
          case DataBit(level) =>
            BitCall(level, q);
            DataBit(level);
          case Byte(value, ack, stretch) => Byte(value, ack, stretch);
          case Stop => Stop();
        }
      }
      assert calls[..|calls|] == calls;
    }

    /** `build`: the two channels. */
    method Build() returns (lines: Lines)
      requires Valid()
      ensures lines == Lines(Expand(SclOf(phases)), Expand(SdaOf(phases)))
    {
      lines := Lines(Expand(sclSegments), Expand(sdaSegments));
    }
  }

  lemma {:induction false} Regroup(a: seq<Phase>, b: seq<Phase>, c: seq<Phase>)
    ensures a + b + c == a + (b + c)
  {
  }

  // ---------------------------------------------------------------------------------------
  // Detector
  // ---------------------------------------------------------------------------------------

  /** Edges of SDA while SCL is high on both sides. */
  function Conditions(edges: seq<Edge>, scl: seq<bool>): seq<Edge>
    requires forall i :: 0 <= i < |edges| ==> edges[i].index >= 1
  {
    if edges == [] then []
    else
      var n := |edges| - 1;
      var at := edges[n].index;
      Conditions(edges[..n], scl) + (if at < |scl| && scl[at - 1] && scl[at] then [edges[n]] else [])
  }

  lemma {:induction false} EdgesPositive(c: seq<bool>)
    ensures forall i :: 0 <= i < |Edges(c)| ==> 1 <= Edges(c)[i].index < |c|
  {
    EdgesExact(c);
    forall i | 0 <= i < |Edges(c)| ensures 1 <= Edges(c)[i].index < |c| {
      EdgeAt(c, Edges(c), i);
    }
  }

  function Marks(scl: seq<bool>, sda: seq<bool>): seq<Edge> {
    EdgesPositive(sda);
    Conditions(Edges(sda), scl)
  }

  /** `detect_start_stop`: a falling SDA edge under a high SCL is a START, a rising one a STOP. */
  method DetectStartStop(scl: seq<bool>, sda: seq<bool>) returns (starts: seq<int>, stops: seq<int>)
    ensures starts == IndicesOf(Marks(scl, sda), false)
    ensures stops == IndicesOf(Marks(scl, sda), true)
  {
    var edges := ExtractEdges(sda);
    EdgesPositive(sda);
    starts, stops := [], [];
    for k := 0 to |edges|
      invariant starts == IndicesOf(Conditions(edges[..k], scl), false)
      invariant stops == IndicesOf(Conditions(edges[..k], scl), true)
    {
      var idx, rising := edges[k].index, edges[k].rising;
      ConditionsStep(edges, k, scl);
      if idx >= |scl| {
        continue;
      }
      if scl[idx - 1] && scl[idx] {
        if rising {
          stops := stops + [idx];
        } else {
          starts := starts + [idx];
        }
      }
    }
    assert edges[..|edges|] == edges;
  }

  lemma {:induction false} ConditionsStep(edges: seq<Edge>, k: nat, scl: seq<bool>)
    requires k < |edges| && forall i :: 0 <= i < |edges| ==> edges[i].index >= 1
    ensures var before, after := Conditions(edges[..k], scl), Conditions(edges[..k + 1], scl);
      var e := edges[k];
      if e.index < |scl| && scl[e.index - 1] && scl[e.index] then
        IndicesOf(after, e.rising) == IndicesOf(before, e.rising) + [e.index]
        && IndicesOf(after, !e.rising) == IndicesOf(before, !e.rising)
      else after == before
  {
    assert edges[..k + 1][..k] == edges[..k];
    IndicesSnoc(Conditions(edges[..k], scl), edges[k]);
    assert Conditions(edges[..k], scl) + [] == Conditions(edges[..k], scl);
  }

  lemma {:induction false} IndicesSnoc(edges: seq<Edge>, e: Edge)
    ensures IndicesOf(edges + [e], e.rising) == IndicesOf(edges, e.rising) + [e.index]
    ensures IndicesOf(edges + [e], !e.rising) == IndicesOf(edges, !e.rising)
  {
    assert (edges + [e])[..|edges|] == edges;
    assert IndicesOf(edges, !e.rising) + [] == IndicesOf(edges, !e.rising);
  }

  // ---------------------------------------------------------------------------------------
  // Detection phase by phase
  // ---------------------------------------------------------------------------------------

  lemma {:induction false} ConditionsExtend(edges: seq<Edge>, scl: seq<bool>, more: seq<bool>)
    requires forall i :: 0 <= i < |edges| ==> 1 <= edges[i].index < |scl|
    ensures Conditions(edges, scl + more) == Conditions(edges, scl)
  {
    if edges != [] {
      ConditionsExtend(edges[..|edges| - 1], scl, more);
    }
  }

  /** The condition, if any, that a phase creates at its beginning. */
  function Joint(scl: seq<bool>, sda: seq<bool>, p: Phase): seq<Edge>
    requires |scl| == |sda|
  {
    var n := |sda|;
    if n > 0 && scl[n - 1] && p.scl && sda[n - 1] != p.sda then [Edge(n, p.sda)] else []
  }

  lemma {:induction false} MarksAppend(scl: seq<bool>, sda: seq<bool>, p: Phase)
    requires |scl| == |sda| && p.count > 0
    ensures Marks(scl + Fill(p.scl, p.count), sda + Fill(p.sda, p.count)) == Marks(scl, sda) + Joint(scl, sda, p)
  {
    var n, scl' := |sda|, scl + Fill(p.scl, p.count);
    EdgesAppendRun(sda, p.sda, p.count);
    EdgesPositive(sda);
    EdgesPositive(sda + Fill(p.sda, p.count));
    ConditionsExtend(Edges(sda), scl, Fill(p.scl, p.count));
    if n > 0 && sda[n - 1] != p.sda {
      assert (Edges(sda) + [Edge(n, p.sda)])[..|Edges(sda)|] == Edges(sda);
      assert scl'[n - 1] == scl[n - 1] && scl'[n] == p.scl;
    } else {
      assert Edges(sda) + [] == Edges(sda);
    }
    assert Marks(scl, sda) + [] == Marks(scl, sda);
  }

  datatype Lines = Lines(scl: seq<bool>, sda: seq<bool>)

  function AfterPhase(lines: Lines, p: Phase): Lines {
    if p.count > 0 then Lines(lines.scl + Fill(p.scl, p.count), lines.sda + Fill(p.sda, p.count)) else lines
  }

  function AfterPhases(lines: Lines, phases: seq<Phase>): Lines {
    if phases == [] then lines
    else AfterPhase(AfterPhases(lines, phases[..|phases| - 1]), phases[|phases| - 1])
  }

  lemma {:induction false} AfterConcat(lines: Lines, a: seq<Phase>, b: seq<Phase>)
    ensures AfterPhases(lines, a + b) == AfterPhases(AfterPhases(lines, a), b)
  {
    if b == [] {
      assert a + b == a;
    } else {
      assert (a + b)[..|a + b| - 1] == a + b[..|b| - 1];
      AfterConcat(lines, a, b[..|b| - 1]);
    }
  }

  lemma {:induction false} AfterIsExpand(phases: seq<Phase>)
    ensures AfterPhases(Lines([], []), phases) == Lines(Expand(SclOf(phases)), Expand(SdaOf(phases)))
  {
    if phases != [] {
      var front, p := phases[..|phases| - 1], phases[|phases| - 1];
      AfterIsExpand(front);
      assert SclOf(phases) == SclOf(front) + [Segment(p.scl, p.count)];
      assert SdaOf(phases) == SdaOf(front) + [Segment(p.sda, p.count)];
      ExpandSnoc(SclOf(front), Segment(p.scl, p.count));
      ExpandSnoc(SdaOf(front), Segment(p.sda, p.count));
      if p.count <= 0 {
        assert Expand(SclOf(front)) + [] == Expand(SclOf(front));
        assert Expand(SdaOf(front)) + [] == Expand(SdaOf(front));
      }
    }
  }

  /** Between calls SDA is high whenever SCL is. */
  ghost predicate Settled(lines: Lines) {
    && |lines.scl| == |lines.sda|
    && (lines.scl != [] && lines.scl[|lines.scl| - 1] ==> lines.sda[|lines.sda| - 1])
  }

  /** One phase, with what it adds to the record. */
  ghost predicate Reaches(a: Lines, b: Lines, marks: seq<Edge>, samples: int) {
    && |a.scl| == |a.sda| && |b.scl| == |b.sda|
    && Marks(b.scl, b.sda) == Marks(a.scl, a.sda) + marks
    && |b.scl| == |a.scl| + samples
  }

  lemma {:induction false} PhaseReaches(lines: Lines, p: Phase)
    requires |lines.scl| == |lines.sda|
    ensures Reaches(lines, AfterPhase(lines, p), if p.count > 0 then Joint(lines.scl, lines.sda, p) else [],
                    Max(p.count, 0))
    ensures p.count > 0 ==> EndsWith(AfterPhase(lines, p), p)
  {
    if p.count > 0 {
      MarksAppend(lines.scl, lines.sda, p);
    } else {
      assert Marks(lines.scl, lines.sda) + [] == Marks(lines.scl, lines.sda);
    }
  }

  lemma {:induction false} ReachesTrans(a: Lines, b: Lines, c: Lines, m: seq<Edge>, n: seq<Edge>, s: int, t: int)
    requires Reaches(a, b, m, s) && Reaches(b, c, n, t)
    ensures Reaches(a, c, m + n, s + t)
  {
  }

  /** The lines end with the levels of this phase. */
  ghost predicate EndsWith(lines: Lines, p: Phase) {
    && lines.scl != [] && lines.sda != []
    && lines.scl[|lines.scl| - 1] == p.scl && lines.sda[|lines.sda| - 1] == p.sda
  }

  lemma {:induction false} TwoPhases(lines: Lines, a: Phase, b: Phase)
    requires |lines.scl| == |lines.sda| && a.count > 0 && b.count > 0
    ensures Reaches(lines, AfterPhase(AfterPhase(lines, a), b),
                    Joint(lines.scl, lines.sda, a) + Between(a, b, |lines.scl| + a.count), a.count + b.count)
  {
    hide Marks, AfterPhase, Joint, Between;
    var l1 := AfterPhase(lines, a);
    var l2 := AfterPhase(l1, b);
    PhaseReaches(lines, a);
    PhaseReaches(l1, b);
    JointAfter(lines, a, b);
    ReachesTrans(lines, l1, l2, Joint(lines.scl, lines.sda, a), Between(a, b, |lines.scl| + a.count), a.count, b.count);
  }

  lemma {:induction false} ThreePhases(lines: Lines, a: Phase, b: Phase, c: Phase)
    requires |lines.scl| == |lines.sda| && a.count > 0 && b.count > 0 && c.count > 0
    ensures var marks := Joint(lines.scl, lines.sda, a)
        + Between(a, b, |lines.scl| + a.count) + Between(b, c, |lines.scl| + a.count + b.count);
      var after := AfterPhases(lines, [a, b, c]);
      && Reaches(lines, after, marks, a.count + b.count + c.count)
      && EndsWith(after, c)
  {
    hide Marks, AfterPhase, AfterPhases, Joint, Between, EndsWith;
    var l1 := AfterPhase(lines, a);
    var l2 := AfterPhase(l1, b);
    AfterThree(lines, a, b, c);
    PhaseReaches(lines, a);
    TwoPhases(lines, a, b);
    PhaseReaches(l2, c);
    JointAfter(l1, b, c);
    ReachesTrans(lines, l2, AfterPhase(l2, c), Joint(lines.scl, lines.sda, a) + Between(a, b, |lines.scl| + a.count),
                 Between(b, c, |lines.scl| + a.count + b.count), a.count + b.count, c.count);
  }

  /** The condition between two consecutive phases. */
  function Between(p: Phase, next: Phase, at: int): seq<Edge> {
    if p.scl && next.scl && p.sda != next.sda then [Edge(at, next.sda)] else []
  }

  lemma {:induction false} ReachesQuiet(a: Lines, b: Lines, c: Lines, s: int, t: int)
    requires Reaches(a, b, [], s) && Reaches(b, c, [], t)
    ensures Reaches(a, c, [], s + t)
  {
    ReachesTrans(a, b, c, [], [], s, t);
    PrependNone([]);
  }

  lemma {:induction false} JointAfter(lines: Lines, p: Phase, next: Phase)
    requires |lines.scl| == |lines.sda| && p.count > 0
    ensures var after := AfterPhase(lines, p);
      |after.scl| == |after.sda| && Joint(after.scl, after.sda, next) == Between(p, next, |lines.scl| + p.count)
  {
  }

  lemma {:induction false} AfterThree(lines: Lines, a: Phase, b: Phase, c: Phase)
    ensures AfterPhases(lines, [a, b, c]) == AfterPhase(AfterPhase(AfterPhase(lines, a), b), c)
  {
    assert [a, b, c][..2] == [a, b] && [a, b][..1] == [a];
    AfterOne(lines, a);
  }

  lemma {:induction false} AfterOne(lines: Lines, p: Phase)
    ensures AfterPhases(lines, [p]) == AfterPhase(lines, p)
  {
    assert [p][..0] == [];
  }

  // ---------------------------------------------------------------------------------------
  // Detection call by call
  // ---------------------------------------------------------------------------------------

  /** What a call that begins at `offset` must add to the record. */
  function CallMarks(call: Call, offset: int, q: int): seq<Edge> {
    match call
    case Start => [Edge(offset + q, false)]
    case Stop => [Edge(offset + 3 * q, true)]
    case _ => []
  }

  function Duration(call: Call, q: int): int {
    match call
    case Idle(samples) => Max(samples, 0)
    case Byte(_, _, stretch) => 36 * q + Max(stretch, 0)
    case _ => 4 * q
  }

  lemma {:induction false} BitReaches(lines: Lines, value: bool, q: int)
    requires Settled(lines) && q >= 1
    ensures var after := AfterPhases(lines, BitPhases(value, q));
      && Reaches(lines, after, [], 4 * q)
      && after.scl != [] && !after.scl[|after.scl| - 1]
  {
    ThreePhases(lines, Phase(false, value, q), Phase(true, value, q * 2), Phase(false, value, q));
    var none: seq<Edge> := [];
    assert none + none + none == none;
  }

  lemma {:induction false} BitsReach(lines: Lines, bits: seq<bool>, q: int)
    requires Settled(lines) && q >= 1
    ensures var after := AfterPhases(lines, BitsPhases(bits, q));
      && Settled(after) && Reaches(lines, after, [], |bits| * (4 * q))
      && (bits != [] ==> after.scl != [] && !after.scl[|after.scl| - 1])
  {
    if bits == [] {
      assert Marks(lines.scl, lines.sda) + [] == Marks(lines.scl, lines.sda);
    } else {
      var front, bit := bits[..|bits| - 1], bits[|bits| - 1];
      var mid := AfterPhases(lines, BitsPhases(front, q));
      BitsReach(lines, front, q);
      BitReaches(mid, bit, q);
      AfterConcat(lines, BitsPhases(front, q), BitPhases(bit, q));
      ReachesQuiet(lines, mid, AfterPhases(mid, BitPhases(bit, q)), |front| * (4 * q), 4 * q);
      MulSucc(|front|, 4 * q);
    }
  }

  lemma {:induction false} ByteReaches(lines: Lines, value: int, ack: bool, stretch: int, q: int)
    requires Settled(lines) && q >= 1
    ensures var after := AfterPhases(lines, Phases(Byte(value, ack, stretch), q));
      Settled(after) && Reaches(lines, after, [], 36 * q + Max(stretch, 0))
  {
    NineBitsReach(lines, BitsMsb(value, 8) + [!ack], q);
    var bits := BitsPhases(BitsMsb(value, 8) + [!ack], q);
    if stretch != 0 {
      HoldReaches(lines, bits, stretch, 36 * q);
    } else {
      assert bits + [] == bits;
    }
  }

  lemma {:induction false} NineBitsReach(lines: Lines, bits: seq<bool>, q: int)
    requires Settled(lines) && q >= 1 && |bits| == 9
    ensures var after := AfterPhases(lines, BitsPhases(bits, q));
      && Settled(after) && Reaches(lines, after, [], 36 * q)
      && after.scl != [] && !after.scl[|after.scl| - 1]
  {
    BitsReach(lines, bits, q);
    assert |bits| * (4 * q) == 36 * q;
  }

  /** Stretching keeps both lines low; it can create no condition. */
  lemma {:induction false} HoldReaches(lines: Lines, phases: seq<Phase>, stretch: int, samples: int)
    requires var mid := AfterPhases(lines, phases);
      && Settled(mid) && Reaches(lines, mid, [], samples)
      && mid.scl != [] && !mid.scl[|mid.scl| - 1]
    ensures var after := AfterPhases(lines, phases + [Phase(false, false, stretch)]);
      Settled(after) && Reaches(lines, after, [], samples + Max(stretch, 0))
  {
    var mid, hold := AfterPhases(lines, phases), Phase(false, false, stretch);
    AfterConcat(lines, phases, [hold]);
    AfterOne(mid, hold);
    PhaseReaches(mid, hold);
    ReachesQuiet(lines, mid, AfterPhase(mid, hold), samples, Max(stretch, 0));
  }

  lemma {:induction false} StartReaches(lines: Lines, q: int)
    requires Settled(lines) && q >= 1
    ensures var after := AfterPhases(lines, Phases(Start, q));
      Settled(after) && Reaches(lines, after, [Edge(|lines.scl| + q, false)], 4 * q)
  {
    var mark := [Edge(|lines.scl| + q, false)];
    ThreePhases(lines, Phase(true, true, q), Phase(true, false, q), Phase(false, false, q * 2));
    assert [] + mark + [] == mark;
  }

  lemma {:induction false} StopReaches(lines: Lines, q: int)
    requires Settled(lines) && q >= 1
    ensures var after := AfterPhases(lines, Phases(Stop, q));
      Settled(after) && Reaches(lines, after, [Edge(|lines.scl| + 3 * q, true)], 4 * q)
  {
    var mark := [Edge(|lines.scl| + 3 * q, true)];
    ThreePhases(lines, Phase(false, false, q), Phase(true, false, q * 2), Phase(true, true, q));
    assert [] + [] + mark == mark;
  }

  /** Every call leaves the lines settled and adds exactly its own condition. */
  lemma {:induction false} CallReaches(lines: Lines, call: Call, q: int)
    requires Settled(lines) && q >= 1
    ensures var after := AfterPhases(lines, Phases(call, q));
      Settled(after) && Reaches(lines, after, CallMarks(call, |lines.scl|, q), Duration(call, q))
  {
    hide Marks, AfterPhase, Joint;
    match call {
      case Idle(samples) =>
        IdleReaches(lines, samples, q);
      case Start =>
        StartReaches(lines, q);
      case DataBit(value) =>
        BitReaches(lines, value, q);
      case Byte(value, ack, stretch) =>
        ByteReaches(lines, value, ack, stretch, q);
      case Stop =>
        StopReaches(lines, q);
    }
  }

  lemma BitCall(level: bool, q: int)
    ensures Phases(Call.DataBit(level), q) == BitPhases(level, q)
  {
  }

  lemma {:induction false} IdleReaches(lines: Lines, samples: int, q: int)
    requires Settled(lines) && q >= 1
    ensures var call := Call.Idle(samples);
      var after := AfterPhases(lines, Phases(call, q));
      Settled(after) && Reaches(lines, after, CallMarks(call, |lines.scl|, q), Duration(call, q))
  {
    AfterOne(lines, Phase(true, true, samples));
    PhaseReaches(lines, Phase(true, true, samples));
  }

  function TotalDuration(calls: seq<Call>, q: int): int {
    if calls == [] then 0
    else TotalDuration(calls[..|calls| - 1], q) + Duration(calls[|calls| - 1], q)
  }

  /** One START a quarter period into every start call, one STOP three quarter periods into
      every stop call, in call order; nothing else. */
  function ScriptMarks(calls: seq<Call>, q: int): seq<Edge> {
    if calls == [] then []
    else
      var front := calls[..|calls| - 1];
      ScriptMarks(front, q) + CallMarks(calls[|calls| - 1], TotalDuration(front, q), q)
  }

  lemma {:induction false} ScriptReaches(calls: seq<Call>, q: int)
    requires q >= 1
    ensures var after := AfterPhases(Lines([], []), Script(calls, q));
      Settled(after) && Reaches(Lines([], []), after, ScriptMarks(calls, q), TotalDuration(calls, q))
  {
    if calls == [] {
      assert Marks([], []) + [] == Marks([], []);
    } else {
      var front, call := calls[..|calls| - 1], calls[|calls| - 1];
      var mid := AfterPhases(Lines([], []), Script(front, q));
      ScriptReaches(front, q);
      CallReaches(mid, call, q);
      AfterConcat(Lines([], []), Script(front, q), Phases(call, q));
      ReachesTrans(Lines([], []), mid, AfterPhases(mid, Phases(call, q)),
                   ScriptMarks(front, q), CallMarks(call, |mid.scl|, q), TotalDuration(front, q), Duration(call, q));
    }
  }

  /** For every sequence of builder calls, in any order, the detector finds exactly the START
      and STOP conditions of the start and stop calls. */
  lemma {:induction false} ScriptExact(calls: seq<Call>, q: int)
    requires q >= 1
    ensures var scl, sda := Expand(SclOf(Script(calls, q))), Expand(SdaOf(Script(calls, q)));
      && |scl| == |sda| == TotalDuration(calls, q)
      && Marks(scl, sda) == ScriptMarks(calls, q)
  {
    ScriptReaches(calls, q);
    AfterIsExpand(Script(calls, q));
    NoMarks();
    PrependNone(ScriptMarks(calls, q));
  }

  lemma NoMarks()
    ensures Marks([], []) == []
  {
    assert Edges([]) == [];
  }

  lemma PrependNone(marks: seq<Edge>)
    ensures [] + marks == marks
  {
  }

  lemma {:induction false} ScriptSnoc(calls: seq<Call>, call: Call, q: int)
    ensures Script(calls + [call], q) == Script(calls, q) + Phases(call, q)
  {
    assert (calls + [call])[..|calls|] == calls;
  }

  lemma {:induction false} ScriptConcat(a: seq<Call>, b: seq<Call>, q: int)
    ensures Script(a + b, q) == Script(a, q) + Script(b, q)
  {
    hide Phases;
    if b == [] {
      assert a + b == a;
    } else {
      var n := |b| - 1;
      assert (a + b)[..|a + b| - 1] == a + b[..n];
      ScriptConcat(a, b[..n], q);
    }
  }

  lemma {:induction false} StartScript(q: int)
    ensures Script([Idle(q * 4), Start], q)
         == [Phase(true, true, q * 4), Phase(true, true, q), Phase(true, false, q),
             Phase(false, false, q * 2)]
  {
    var none: seq<Call> := [];
    assert none + [Idle(q * 4)] == [Idle(q * 4)];
    assert [Idle(q * 4)] + [Start] == [Idle(q * 4), Start];
    ScriptSnoc(none, Idle(q * 4), q);
    ScriptSnoc([Idle(q * 4)], Start, q);
  }

  // ---------------------------------------------------------------------------------------
  // The transaction generator
  // ---------------------------------------------------------------------------------------

  datatype I2cError = SpeedIsZero

  function PayloadCalls(payload: seq<int>, stretch: int): seq<Call> {
    seq(|payload|, i requires 0 <= i < |payload| => Byte(payload[i], true, stretch))
  }

  datatype Generator = Generator(address: int, payload: seq<int>, rw: int, speed: int, stretching: bool,
                                 sampleRate: int) {

    /** `payload or [0xAA]`. */
    function Payload(): seq<int> {
      if payload == [] then [0xAA] else payload
    }

    function Quarter(): (q: int)
      requires speed != 0
      ensures q >= 1
    {
      Max(1, Round(sampleRate as real / speed as real) / 4)
    }

    /** The calls of one write or read transaction. */
    function Calls(q: int): seq<Call> {
      var stretch := if stretching then q * 2 else 0;
      [Idle(q * 4), Start, Byte(address % 0x80 * 2 + rw % 2, true, stretch)]
      + PayloadCalls(Payload(), stretch)
      + [Stop, Idle(q * 4)]
    }

    method Generate() returns (r: Result<Lines, I2cError>)
      ensures speed == 0 ==> r == Err(SpeedIsZero)
      ensures speed != 0 ==>
        r == Ok(Lines(Expand(SclOf(Script(Calls(Quarter()), Quarter()))),
                      Expand(SdaOf(Script(Calls(Quarter()), Quarter())))))
    {
      if speed == 0 {
        return Err(SpeedIsZero);
      }
      var builder := new I2CBuilder(Quarter());
      builder.Perform(Calls(Quarter()));
      var lines := builder.Build();
      return Ok(lines);
    }
  }

  lemma {:induction false} MarksSkip(calls: seq<Call>, more: seq<Call>, q: int)
    requires forall i :: 0 <= i < |more| ==> !more[i].Start? && !more[i].Stop?
    ensures ScriptMarks(calls + more, q) == ScriptMarks(calls, q)
  {
    if more == [] {
      assert calls + more == calls;
    } else {
      assert (calls + more)[..|calls + more| - 1] == calls + more[..|more| - 1];
      MarksSkip(calls, more[..|more| - 1], q);
    }
  }

  lemma {:induction false} MarksLast(calls: seq<Call>, call: Call, q: int)
    ensures ScriptMarks(calls + [call], q) == ScriptMarks(calls, q) + CallMarks(call, TotalDuration(calls, q), q)
    ensures TotalDuration(calls + [call], q) == TotalDuration(calls, q) + Duration(call, q)
  {
    assert (calls + [call])[..|calls|] == calls;
  }

  lemma {:induction false} PayloadCallsSnoc(calls: seq<Call>, payload: seq<int>, stretch: int)
    requires payload != []
    ensures calls + PayloadCalls(payload, stretch)
         == calls + PayloadCalls(payload[..|payload| - 1], stretch) + [Byte(payload[|payload| - 1], true, stretch)]
  {
  }

  lemma {:induction false} BytesDuration(calls: seq<Call>, payload: seq<int>, stretch: int, q: int, byte: int)
    requires stretch >= 0 && byte == 36 * q + stretch
    ensures TotalDuration(calls + PayloadCalls(payload, stretch), q) == TotalDuration(calls, q) + |payload| * byte
  {
    if payload == [] {
      assert calls + PayloadCalls(payload, stretch) == calls;
    } else {
      var n := |payload| - 1;
      BytesDuration(calls, payload[..n], stretch, q, byte);
      var front := calls + PayloadCalls(payload[..n], stretch);
      PayloadCallsSnoc(calls, payload, stretch);
      MarksLast(front, Byte(payload[n], true, stretch), q);
      MulSucc(n, byte);
    }
  }

  /** A generated transaction holds one START and one STOP, each at its place, whatever the
      address, the payload and the stretching. */
  lemma {:induction false} TransactionExact(g: Generator, q: int, byte: int)
    requires q >= 1 && byte == 36 * q + (if g.stretching then q * 2 else 0)
    ensures var scl, sda := Expand(SclOf(Script(g.Calls(q), q))), Expand(SdaOf(Script(g.Calls(q), q)));
      Marks(scl, sda) == [Edge(5 * q, false), Edge(11 * q + byte + |g.Payload()| * byte, true)]
  {
    ScriptExact(g.Calls(q), q);
    TransactionMarks(g, q, byte);
  }

  lemma {:induction false} TransactionMarks(g: Generator, q: int, byte: int)
    requires q >= 1 && byte == 36 * q + (if g.stretching then q * 2 else 0)
    ensures ScriptMarks(g.Calls(q), q) == [Edge(5 * q, false), Edge(11 * q + byte + |g.Payload()| * byte, true)]
  {
    var stretch := if g.stretching then q * 2 else 0;
    var address := Byte(g.address % 0x80 * 2 + g.rw % 2, true, stretch);
    var head := [Idle(q * 4), Start, address];
    var body := head + PayloadCalls(g.Payload(), stretch);
    assert g.Calls(q) == body + [Stop] + [Idle(q * 4)];
    HeadMarks(address, q, stretch);
    MarksSkip(head, PayloadCalls(g.Payload(), stretch), q);
    BytesDuration(head, g.Payload(), stretch, q, byte);
    MarksLast(body, Stop, q);
    MarksLast(body + [Stop], Idle(q * 4), q);
  }

  lemma {:induction false} HeadMarks(address: Call, q: int, stretch: int)
    requires address.Byte? && address.stretch == stretch >= 0 && q >= 1
    ensures var head := [Idle(q * 4), Start, address];
      && ScriptMarks(head, q) == [Edge(5 * q, false)]
      && TotalDuration(head, q) == 8 * q + (36 * q + stretch)
  {
    var none: seq<Call> := [];
    assert none + [Idle(q * 4)] == [Idle(q * 4)];
    assert [Idle(q * 4)] + [Start] == [Idle(q * 4), Start];
    assert [Idle(q * 4), Start] + [address] == [Idle(q * 4), Start, address];
    MarksLast(none, Idle(q * 4), q);
    MarksLast([Idle(q * 4)], Start, q);
    MarksLast([Idle(q * 4), Start], address, q);
  }
}
