/** What a listener reads from the lines that the I2C builder draws (tests/synth.py): SDA, sampled
    whenever SCL rises, as in section 3.1.3 of NXP UM10204. */
module I2cReader {
  import opened Numbers
  import opened Results
  import opened Signals
  import opened I2c
  import SpiMode

  /** The levels of SDA at the rising edges of SCL, which was last at `prev`. */
  function Read(scl: seq<bool>, sda: seq<bool>, prev: bool): seq<bool>
    requires |scl| == |sda|
  {
    SpiMode.Sampled(scl, sda, prev, false, true)
  }

  lemma {:induction false} ReadsRises(scl: seq<bool>, sda: seq<bool>, prev: bool)
    requires |scl| == |sda| > 0
    ensures Read(scl, sda, prev)
         == (if scl[0] && !prev then [sda[0]] else []) + Read(scl[1..], sda[1..], scl[0])
  {
  }

  // ---------------------------------------------------------------------------------------
  // Phase by phase
  // ---------------------------------------------------------------------------------------

  function Scl(phases: seq<Phase>): seq<bool> {
    Expand(SclOf(phases))
  }

  function Sda(phases: seq<Phase>): seq<bool> {
    Expand(SdaOf(phases))
  }

  /** The level of SCL after some phases. */
  function EndLevel(phases: seq<Phase>, prev: bool): bool {
    if phases == [] then prev
    else EndLevel(phases[1..], if phases[0].count > 0 then phases[0].scl else prev)
  }

  lemma {:induction false} LinesConcat(a: seq<Phase>, b: seq<Phase>)
    ensures Scl(a + b) == Scl(a) + Scl(b) && Sda(a + b) == Sda(a) + Sda(b)
  {
    hide Expand;
    assert SclOf(a + b) == SclOf(a) + SclOf(b) && SdaOf(a + b) == SdaOf(a) + SdaOf(b);
    ExpandConcat(SclOf(a), SclOf(b));
    ExpandConcat(SdaOf(a), SdaOf(b));
  }

  lemma {:induction false} LinesAlign(phases: seq<Phase>)
    ensures |Scl(phases)| == |Sda(phases)|
  {
    hide Expand;
    if phases == [] {
      NoLines();
    } else {
      assert phases == [phases[0]] + phases[1..];
      LinesConcat([phases[0]], phases[1..]);
      OneLine(phases[0]);
      LinesAlign(phases[1..]);
    }
  }

  lemma NoLines()
    ensures Scl([]) == [] && Sda([]) == []
  {
  }

  lemma {:induction false} OneLine(p: Phase)
    ensures Scl([p]) == (if p.count > 0 then Fill(p.scl, p.count) else [])
    ensures Sda([p]) == (if p.count > 0 then Fill(p.sda, p.count) else [])
  {
    assert SclOf([p]) == [Segment(p.scl, p.count)] && SdaOf([p]) == [Segment(p.sda, p.count)];
    ExpandSingle(Segment(p.scl, p.count));
    ExpandSingle(Segment(p.sda, p.count));
  }

  lemma {:induction false} ExpandSingle(s: Segment)
    ensures Expand([s]) == ExpandOne(s)
  {
    assert Expand([s][1..]) == [];
    assert ExpandOne(s) + [] == ExpandOne(s);
  }

  /** What is read from the lines of some phases. */
  function Heard(phases: seq<Phase>, prev: bool): seq<bool> {
    LinesAlign(phases);
    Read(Scl(phases), Sda(phases), prev)
  }

  lemma {:induction false} HeardCons(p: Phase, rest: seq<Phase>, prev: bool)
    ensures Heard([p] + rest, prev)
         == (if p.count > 0 && p.scl && !prev then [p.sda] else [])
            + Heard(rest, if p.count > 0 then p.scl else prev)
    ensures EndLevel([p] + rest, prev) == EndLevel(rest, if p.count > 0 then p.scl else prev)
  {
    hide Scl, Sda;
    LinesConcat([p], rest);
    OneLine(p);
    LinesAlign(rest);
    assert ([p] + rest)[1..] == rest;
    if p.count > 0 {
      SpiMode.SampledFill(p.scl, Fill(p.sda, p.count), Scl(rest), Sda(rest), prev, false, true);
    } else {
      assert [] + Scl(rest) == Scl(rest) && [] + Sda(rest) == Sda(rest);
    }
  }

  lemma {:induction false} HeardConcat(a: seq<Phase>, b: seq<Phase>, prev: bool)
    ensures Heard(a + b, prev) == Heard(a, prev) + Heard(b, EndLevel(a, prev))
    ensures EndLevel(a + b, prev) == EndLevel(b, EndLevel(a, prev))
  {
    hide Heard;
    if a == [] {
      assert a + b == b;
      NothingHeard(prev);
    } else {
      var p, rest := a[0], a[1..];
      assert a == [p] + rest && a + b == [p] + (rest + b);
      HeardCons(p, rest, prev);
      HeardCons(p, rest + b, prev);
      HeardConcat(rest, b, if p.count > 0 then p.scl else prev);
    }
  }

  lemma NothingHeard(prev: bool)
    ensures Heard([], prev) == []
  {
    NoLines();
  }

  /** Three phases at once. */
  lemma {:induction false} HeardThree(a: Phase, b: Phase, c: Phase, prev: bool)
    requires a.count > 0 && b.count > 0 && c.count > 0
    ensures Heard([a, b, c], prev)
         == (if a.scl && !prev then [a.sda] else []) + ((if b.scl && !a.scl then [b.sda] else [])
            + (if c.scl && !b.scl then [c.sda] else []))
    ensures EndLevel([a, b, c], prev) == c.scl
  {
    hide Heard;
    assert [a, b, c] == [a] + ([b] + ([c] + []));
    HeardCons(a, [b] + ([c] + []), prev);
    HeardCons(b, [c] + [], a.scl);
    HeardCons(c, [], b.scl);
    NothingHeard(c.scl);
  }

  // ---------------------------------------------------------------------------------------
  // Call by call
  // ---------------------------------------------------------------------------------------

  lemma {:induction false} BitHeard(value: bool, q: int, prev: bool)
    requires q >= 1
    ensures Heard(BitPhases(value, q), prev) == [value] && !EndLevel(BitPhases(value, q), prev)
  {
    hide Heard;
    HeardThree(Phase(false, value, q), Phase(true, value, q * 2), Phase(false, value, q), prev);
  }

  lemma {:induction false} BitsHeard(bits: seq<bool>, q: int, prev: bool)
    requires q >= 1
    ensures Heard(BitsPhases(bits, q), prev) == bits
    ensures bits != [] ==> !EndLevel(BitsPhases(bits, q), prev)
  {
    hide Heard, EndLevel, BitPhases;
    if bits == [] {
      NothingHeard(prev);
    } else {
      var n := |bits| - 1;
      BitsHeard(bits[..n], q, prev);
      HeardConcat(BitsPhases(bits[..n], q), BitPhases(bits[n], q), prev);
      BitHeard(bits[n], q, EndLevel(BitsPhases(bits[..n], q), prev));
      assert bits[..n] + [bits[n]] == bits;
    }
  }

  /** Nine bits carry this byte, most significant bit first, and a low ninth bit acknowledges it. */
  ghost predicate Carries(bits: seq<bool>, value: int, ack: bool) {
    |bits| == 9 && ValueMsb(bits[..8]) == value % 256 && bits[8] == !ack
  }

  /** A byte is heard as its eight bits, most significant first, and its acknowledge bit, whatever
      was on the lines before and however long the clock is stretched. */
  lemma {:induction false} ByteHeard(value: int, ack: bool, stretch: int, q: int, prev: bool)
    requires q >= 1
    ensures Carries(Heard(Phases(Byte(value, ack, stretch), q), prev), value, ack)
    ensures !EndLevel(Phases(Byte(value, ack, stretch), q), prev)
  {
    hide Heard, BitsPhases, BitsMsb, ValueMsb;
    var bits := BitsMsb(value, 8) + [!ack];
    var hold := if stretch != 0 then [Phase(false, false, stretch)] else [];
    MsbLength(value);
    BitsHeard(bits, q, prev);
    HeardConcat(BitsPhases(bits, q), hold, prev);
    if stretch != 0 {
      assert hold == hold + [];
      HeardCons(hold[0], [], false);
    }
    NothingHeard(false);
    assert Heard(hold, false) == [];
    assert bits + [] == bits;
    assert Phases(Byte(value, ack, stretch), q) == BitsPhases(bits, q) + hold;
    BitsMsbRoundTrip(value, 8);
    assert Pow2(8) == 256;
    assert bits[..8] == BitsMsb(value, 8);
  }

  lemma MsbLength(value: int)
    ensures |BitsMsb(value, 8)| == 8
  {
  }

  /** A start condition is heard as nothing on a bus whose clock is high; a stop condition as the
      low level at its own clock edge. */
  lemma {:induction false} ConditionsHeard(q: int, prev: bool)
    requires q >= 1
    ensures Heard(Phases(Start, q), prev) == (if prev then [] else [true]) && !EndLevel(Phases(Start, q), prev)
    ensures Heard(Phases(Stop, q), prev) == [false] && EndLevel(Phases(Stop, q), prev)
  {
    hide Heard;
    HeardThree(Phase(true, true, q), Phase(true, false, q), Phase(false, false, q * 2), prev);
    HeardThree(Phase(false, false, q), Phase(true, false, q * 2), Phase(true, true, q), prev);
  }

  lemma {:induction false} IdleHeard(samples: int, q: int, prev: bool)
    requires samples >= 1
    ensures Heard(Phases(Idle(samples), q), prev) == (if prev then [] else [true])
        && EndLevel(Phases(Idle(samples), q), prev)
  {
    hide Heard;
    var idle := Phase(true, true, samples);
    assert [idle] == [idle] + [];
    HeardCons(idle, [], prev);
    NothingHeard(true);
  }

  // ---------------------------------------------------------------------------------------
  // A whole transaction
  // ---------------------------------------------------------------------------------------

  /** These bits are the address byte and the payload, each acknowledged, nine bits each, and the
      low level at the clock edge of the stop condition. */
  ghost predicate Delivers(bits: seq<bool>, g: Generator) {
    var payload := if g.payload == [] then [0xAA] else g.payload;
    && |bits| == 9 * (|payload| + 1) + 1
    && Carries(bits[..9], g.address % 128 * 2 + g.rw % 2, true)
    && (forall k :: 0 <= k < |payload| ==> Carries(bits[9 * k + 9..9 * k + 18], payload[k], true))
    && !bits[|bits| - 1]
  }

  ghost predicate CarriesAll(bits: seq<bool>, payload: seq<int>) {
    && |bits| == 9 * |payload|
    && forall k :: 0 <= k < |payload| ==> Carries(bits[9 * k..9 * k + 9], payload[k], true)
  }

  lemma {:induction false} CarriesMore(bits: seq<bool>, payload: seq<int>, more: seq<bool>)
    requires payload != [] && CarriesAll(bits, payload[..|payload| - 1])
    requires Carries(more, payload[|payload| - 1], true)
    ensures CarriesAll(bits + more, payload)
  {
    hide Carries;
    assert |more| == 9 by { CarriesNine(more, payload[|payload| - 1]); }
    forall k | 0 <= k < |payload| ensures Carries((bits + more)[9 * k..9 * k + 9], payload[k], true) {
      if k < |payload| - 1 {
        assert (bits + more)[9 * k..9 * k + 9] == bits[9 * k..9 * k + 9];
      } else {
        assert (bits + more)[9 * k..9 * k + 9] == more;
      }
    }
  }

  lemma CarriesNine(bits: seq<bool>, value: int)
    requires Carries(bits, value, true)
    ensures |bits| == 9
  {
  }

  lemma {:induction false} PayloadHeard(calls: seq<Call>, payload: seq<int>, stretch: int, q: int)
    returns (bits: seq<bool>)
    requires q >= 1 && !EndLevel(Script(calls, q), true)
    ensures CarriesAll(bits, payload)
    ensures var all := Script(calls + PayloadCalls(payload, stretch), q);
      Heard(all, true) == Heard(Script(calls, q), true) + bits && !EndLevel(all, true)
  {
    hide Heard, EndLevel, Script, Carries, Phases;
    if payload == [] {
      bits := [];
      assert calls + PayloadCalls(payload, stretch) == calls;
    } else {
      var n := |payload| - 1;
      var front := PayloadHeard(calls, payload[..n], stretch, q);
      var before := calls + PayloadCalls(payload[..n], stretch);
      var byte := Byte(payload[n], true, stretch);
      PayloadCallsSnoc(calls, payload, stretch);
      ScriptSnoc(before, byte, q);
      HeardConcat(Script(before, q), Phases(byte, q), true);
      ByteHeard(payload[n], true, stretch, q, false);
      CarriesMore(front, payload, Heard(Phases(byte, q), false));
      bits := front + Heard(Phases(byte, q), false);
    }
  }

  /** Idle, start, address: what comes before the payload. */
  lemma {:induction false} HeadHeard(value: int, stretch: int, q: int)
    requires q >= 1
    ensures var head := Script([Idle(q * 4), Start, Byte(value, true, stretch)], q);
      Carries(Heard(head, true), value, true) && !EndLevel(head, true)
  {
    hide Heard, EndLevel, Script, Carries, Phases;
    var none: seq<Call>, byte := [], Byte(value, true, stretch);
    assert none + [Idle(q * 4)] == [Idle(q * 4)];
    assert [Idle(q * 4)] + [Start] == [Idle(q * 4), Start];
    assert [Idle(q * 4), Start] + [byte] == [Idle(q * 4), Start, byte];
    EmptyScript(q);
    ScriptSnoc(none, Idle(q * 4), q);
    ScriptSnoc([Idle(q * 4)], Start, q);
    ScriptSnoc([Idle(q * 4), Start], byte, q);
    assert [] + Phases(Idle(q * 4), q) == Phases(Idle(q * 4), q);
    IdleHeard(q * 4, q, true);
    ConditionsHeard(q, true);
    ByteHeard(value, true, stretch, q, false);
    HeardConcat(Phases(Idle(q * 4), q), Phases(Start, q), true);
    HeardConcat(Phases(Idle(q * 4), q) + Phases(Start, q), Phases(byte, q), true);
    assert [] + Heard(Phases(byte, q), false) == Heard(Phases(byte, q), false);
  }

  lemma EmptyScript(q: int)
    ensures Script([], q) == []
  {
  }

  /** From the whole capture a listener gets the address byte and the payload, each acknowledged. */
  lemma {:induction false} TransactionHeard(g: Generator, q: int)
    requires q >= 1
    ensures Delivers(Heard(Script(g.Calls(q), q), true), g)
  {
    hide Heard, EndLevel, Script, Carries, Phases;
    var stretch, value := if g.stretching then q * 2 else 0, g.address % 0x80 * 2 + g.rw % 2;
    var head := [Idle(q * 4), Start, Byte(value, true, stretch)];
    HeadHeard(value, stretch, q);
    var bits := PayloadHeard(head, g.Payload(), stretch, q);
    var body := head + PayloadCalls(g.Payload(), stretch);
    assert g.Calls(q) == body + [Stop] + [Idle(q * 4)];
    ScriptSnoc(body, Stop, q);
    ScriptSnoc(body + [Stop], Idle(q * 4), q);
    ConditionsHeard(q, false);
    IdleHeard(q * 4, q, true);
    HeardConcat(Script(body, q), Phases(Stop, q), true);
    HeardConcat(Script(body, q) + Phases(Stop, q), Phases(Idle(q * 4), q), true);
    DeliversParts(g, Heard(Script(head, q), true), bits, value);
  }

  lemma {:induction false} DeliversParts(g: Generator, first: seq<bool>, rest: seq<bool>, value: int)
    requires value == g.address % 128 * 2 + g.rw % 2
    requires Carries(first, value, true) && CarriesAll(rest, g.Payload())
    ensures Delivers(first + rest + [false] + [], g)
  {
    CarriesNine(first, value);
    hide Carries;
    var bits := first + rest + [false] + [];
    assert bits[..9] == first;
    forall k | 0 <= k < |g.Payload()| ensures Carries(bits[9 * k + 9..9 * k + 18], g.Payload()[k], true) {
      assert bits[9 * k + 9..9 * k + 18] == rest[9 * k..9 * k + 9];
    }
  }

  // ---------------------------------------------------------------------------------------
  // Between the start and the stop condition
  // ---------------------------------------------------------------------------------------

  /** The phases before the start condition, between the conditions, and behind the stop. */
  lemma {:induction false} TransactionSplits(g: Generator, q: int) returns (inside: seq<Phase>)
    requires q >= 1
    ensures Script(g.Calls(q), q)
         == [Phase(true, true, q * 4), Phase(true, true, q)] + inside + [Phase(true, true, q), Phase(true, true, q * 4)]
    ensures EndLevel(inside, true)
  {
    hide Heard, EndLevel, Script;
    var stretch := if g.stretching then q * 2 else 0;
    var head, mid := [Idle(q * 4), Start], [Byte(g.address % 0x80 * 2 + g.rw % 2, true, stretch)]
                                           + PayloadCalls(g.Payload(), stretch);
    assert g.Calls(q) == head + mid + [Stop] + [Idle(q * 4)];
    ScriptConcat(head, mid, q);
    ScriptSnoc(head + mid, Stop, q);
    ScriptSnoc(head + mid + [Stop], Idle(q * 4), q);
    StartScript(q);
    var opens := [Phase(true, false, q), Phase(false, false, q * 2)];
    var closes := [Phase(false, false, q), Phase(true, false, q * 2)];
    inside := opens + Script(mid, q) + closes;
    HeardConcat(opens + Script(mid, q), closes, true);
    var before := EndLevel(opens + Script(mid, q), true);
    assert closes == [closes[0]] + ([closes[1]] + []);
    HeardCons(closes[0], [closes[1]] + [], before);
    HeardCons(closes[1], [], false);
    AtEnd(true);
  }

  lemma AtEnd(prev: bool)
    ensures EndLevel([], prev) == prev
  {
  }

  lemma {:induction false} HighHeard(m: int, n: int)
    requires m >= 1 && n >= 1
    ensures var pair := [Phase(true, true, m), Phase(true, true, n)];
      Heard(pair, true) == [] && EndLevel(pair, true) && |Scl(pair)| == m + n
  {
    hide Heard, EndLevel;
    var a, b := Phase(true, true, m), Phase(true, true, n);
    assert [a, b] == [a] + ([b] + []) && [a] + [b] == [a, b];
    HeardCons(a, [b] + [], true);
    HeardCons(b, [], true);
    NothingHeard(true);
    AtEnd(true);
    LinesConcat([a], [b]);
    OneLine(a);
    OneLine(b);
  }

  /** Whatever the address, the payload and the stretching, sampling SDA at the clock edges between
      the one START and the one STOP of a generated capture yields, nine bits each, the address
      byte and the payload, most significant bit first and acknowledged; a quarter period is the
      bit period by four, rounded down, and at least one sample. */
  lemma {:induction false} TransactionRead(g: Generator)
    requires g.speed != 0
    ensures var q, period := g.Quarter(), Round(g.sampleRate as real / g.speed as real);
      var scl, sda := Expand(SclOf(Script(g.Calls(q), q))), Expand(SdaOf(Script(g.Calls(q), q)));
      var start, stop := 5 * q, |scl| - 5 * q;
      && (if period < 4 then q == 1 else 4 * q <= period < 4 * q + 4)
      && |scl| == |sda| && 0 <= start <= stop
      && Marks(scl, sda) == [Edge(start, false), Edge(stop, true)]
      && Delivers(Read(scl[start..stop], sda[start..stop], true), g)
  {
    hide Heard, EndLevel, Script, Marks, Expand, Delivers, Round;
    var q := g.Quarter();
    var phases := Script(g.Calls(q), q);
    var inside := TransactionSplits(g, q);
    var a, c := [Phase(true, true, q * 4), Phase(true, true, q)], [Phase(true, true, q), Phase(true, true, q * 4)];
    HighHeard(q * 4, q);
    HighHeard(q, q * 4);
    HeardConcat(a + inside, c, true);
    HeardConcat(a, inside, true);
    TransactionHeard(g, q);
    assert Heard(phases, true) == Heard(inside, true) by {
      assert [] + Heard(inside, true) + [] == Heard(inside, true);
    }
    LinesConcat(a + inside, c);
    LinesConcat(a, inside);
    LinesAlign(a);
    LinesAlign(inside);
    LinesAlign(phases);
    WindowHeard(Scl(a), Scl(inside), Scl(c), Sda(a), Sda(inside), Sda(c));
    MarksAtEnds(g, q);
    var scl, sda := Expand(SclOf(phases)), Expand(SdaOf(phases));
    assert scl == Scl(a) + Scl(inside) + Scl(c) && sda == Sda(a) + Sda(inside) + Sda(c);
    assert |Scl(a)| == 5 * q && |Scl(c)| == 5 * q;
    assert scl[5 * q..|scl| - 5 * q] == Scl(inside) && sda[5 * q..|sda| - 5 * q] == Sda(inside);
    assert Delivers(Heard(inside, true), g);
    HeardIsRead(inside, true);
    QuarterIs(g);
  }

  lemma HeardIsRead(phases: seq<Phase>, prev: bool)
    ensures |Scl(phases)| == |Sda(phases)| && Heard(phases, prev) == Read(Scl(phases), Sda(phases), prev)
  {
    LinesAlign(phases);
  }

  lemma QuarterIs(g: Generator)
    requires g.speed != 0
    ensures var q, period := g.Quarter(), Round(g.sampleRate as real / g.speed as real);
      if period < 4 then q == 1 else 4 * q <= period < 4 * q + 4
  {
    hide Round;
  }

  lemma WindowHeard(a: seq<bool>, b: seq<bool>, c: seq<bool>, x: seq<bool>, y: seq<bool>, z: seq<bool>)
    requires |a| == |x| && |b| == |y| && |c| == |z|
    ensures (a + b + c)[|a|..|a + b + c| - |c|] == b
    ensures (x + y + z)[|a|..|x + y + z| - |c|] == y
  {
  }

  lemma {:induction false} MarksAtEnds(g: Generator, q: int)
    requires q >= 1
    ensures var scl, sda := Expand(SclOf(Script(g.Calls(q), q))), Expand(SdaOf(Script(g.Calls(q), q)));
      |scl| == |sda| && Marks(scl, sda) == [Edge(5 * q, false), Edge(|scl| - 5 * q, true)]
  {
    hide Script, Marks, Expand, TotalDuration, ScriptMarks;
    var stretch := if g.stretching then q * 2 else 0;
    var byte := 36 * q + stretch;
    var address := Byte(g.address % 0x80 * 2 + g.rw % 2, true, stretch);
    var head := [Idle(q * 4), Start, address];
    var body := head + PayloadCalls(g.Payload(), stretch);
    assert g.Calls(q) == body + [Stop] + [Idle(q * 4)];
    ScriptExact(g.Calls(q), q);
    TransactionExact(g, q, byte);
    HeadMarks(address, q, stretch);
    BytesDuration(head, g.Payload(), stretch, q, byte);
    MarksLast(body, Stop, q);
    MarksLast(body + [Stop], Idle(q * 4), q);
  }
}
