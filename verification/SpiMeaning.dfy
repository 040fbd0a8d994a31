/** SPI mode recovery on any two lines (src/slidko/measure/spi.py): when data is sampled, which
    level the clock idles at, how coherent a decode is, and which phase is reported. */
module SpiMeaning {
  import opened Numbers
  import opened Results
  import opened Signals
  import opened Spi
  import opened SpiMode
  import opened SpiInference

  // ---------------------------------------------------------------------------------------
  // When data is sampled
  // ---------------------------------------------------------------------------------------

  /** The clock arrives at sample `i` on a new level, the first sample of all being ignored and the
      clock taken to be idle before; in phase 0 that must be the active level, in phase 1 the idle. */
  predicate SamplesAt(clock: seq<bool>, mode: Mode, i: int) {
    && 1 <= i < |clock|
    && clock[i] != (if i == 1 then mode.cpol else clock[i - 1])
    && clock[i] == (if mode.cpha then mode.cpol else !mode.cpol)
  }

  /** The data levels at those times from `from` on. */
  function ReadFrom(clock: seq<bool>, data: seq<bool>, mode: Mode, from: nat): seq<bool>
    requires from <= |clock| <= |data|
    decreases |clock| - from
  {
    if from == |clock| then []
    else (if SamplesAt(clock, mode, from) then [data[from]] else []) + ReadFrom(clock, data, mode, from + 1)
  }

  lemma {:induction false} SampledFrom(clock: seq<bool>, data: seq<bool>, mode: Mode, from: nat)
    requires 1 <= from <= |clock| <= |data|
    ensures Sampled(clock[from..], data[from..], if from == 1 then mode.cpol else clock[from - 1], mode.cpol,
                    !mode.cpha)
         == ReadFrom(clock, data, mode, from)
    decreases |clock| - from
  {
    if from < |clock| {
      assert clock[from..][1..] == clock[from + 1..] && data[from..][1..] == data[from + 1..];
      SampledFrom(clock, data, mode, from + 1);
    }
  }

  /** On any two lines the decode is the data at exactly the sampling times, in order. */
  lemma {:induction false} DecodedExactly(clock: seq<bool>, data: seq<bool>, mode: Mode)
    requires |clock| <= |data|
    ensures DecodedBits(clock, data, mode) == ReadFrom(clock, data, mode, 0)
  {
    if clock != [] {
      SampledFrom(clock, data, mode, 1);
      assert ReadFrom(clock, data, mode, 0) == [] + ReadFrom(clock, data, mode, 1);
    }
  }

  // ---------------------------------------------------------------------------------------
  // The idle level
  // ---------------------------------------------------------------------------------------

  function Where(mask: seq<bool>): set<int> {
    set i | 0 <= i < |mask| && mask[i]
  }

  function HighWhere(s: seq<bool>, mask: seq<bool>): set<int>
    requires |s| == |mask|
  {
    set i | 0 <= i < |s| && mask[i] && s[i]
  }

  lemma {:induction false} CountsMasked(s: seq<bool>, mask: seq<bool>)
    requires |s| == |mask|
    ensures CountMasked(s, mask) == (|HighWhere(s, mask)|, |Where(mask)|)
  {
    if s != [] {
      var n := |s| - 1;
      CountsMasked(s[..n], mask[..n]);
      assert Where(mask) == if mask[n] then Where(mask[..n]) + {n} else Where(mask[..n]);
      var before := HighWhere(s[..n], mask[..n]);
      assert HighWhere(s, mask) == if mask[n] && s[n] then before + {n} else before;
    }
  }

  /** On any two lines the polarity is the level that the clock has for more than half of the time
      that chip select is high, or of all the time if it never is. */
  lemma {:induction false} PolarityExactly(clock: seq<bool>, cs: seq<bool>)
    requires |clock| == |cs|
    ensures var idle := if true in cs then cs else Fill(true, |cs|);
      DetectCpol(clock, cs) <==> 2 * |HighWhere(clock, idle)| > |Where(idle)|
  {
    CountsMasked(clock, cs);
    CountsMasked(clock, Fill(true, |clock|));
    if true in cs {
      var i :| 0 <= i < |cs| && cs[i];
      assert i in Where(cs);
    } else {
      assert Where(cs) == {};
    }
  }

  // ---------------------------------------------------------------------------------------
  // The phase
  // ---------------------------------------------------------------------------------------

  /** The whole bytes, most significant bit first, that are printable characters. */
  function PrintableBytes(bits: seq<bool>, n: nat): set<int>
    requires 8 * n <= |bits|
  {
    set i | 0 <= i < n && 32 <= ValueMsb(bits[8 * i..8 * i + 8]) <= 126
  }

  lemma {:induction false} CountsPrintable(bits: seq<bool>, n: nat)
    requires 8 * n <= |bits|
    ensures CountPrintable(bits, n) == |PrintableBytes(bits, n)|
  {
    hide ValueMsb;
    if n > 0 {
      CountsPrintable(bits, n - 1);
      var before := PrintableBytes(bits, n - 1);
      assert PrintableBytes(bits, n)
          == if Printable(ByteAt(bits, n - 1)) then before + {n - 1} else before;
    }
  }

  /** The score of a decode is the share of its whole bytes that are printable; a decode of less
      than a byte scores nothing. */
  lemma {:induction false} CoherenceExactly(bits: seq<bool>)
    ensures |bits| < 8 ==> Coherence(bits) == 0.0
    ensures |bits| >= 8 ==> Coherence(bits) * (|bits| / 8) as real == |PrintableBytes(bits, |bits| / 8)| as real
    ensures 0.0 <= Coherence(bits) <= 1.0
  {
    hide CountPrintable, PrintableBytes;
    if |bits| >= 8 {
      var n := |bits| / 8;
      CountsPrintable(bits, n);
      CountPrintableFull(bits, n);
      Ratio(CountPrintable(bits, n), n);
    }
  }

  /** The phase whose decode scores more is reported, phase 0 on a tie, and the confidence is by how
      much it scores more. */
  lemma {:induction false} ModeExactly(clock: seq<bool>, data: seq<bool>, cpol: bool)
    requires |clock| <= |data|
    ensures var estimate := InferredMode(clock, data, cpol);
      var zero := Coherence(ReadFrom(clock, data, Mode(cpol, false), 0));
      var one := Coherence(ReadFrom(clock, data, Mode(cpol, true), 0));
      && estimate.cpol == cpol
      && (estimate.cpha <==> one > zero)
      && estimate.confidence == (if one > zero then one - zero else zero - one)
  {
    hide Coherence, DecodedBits, ReadFrom;
    DecodedExactly(clock, data, Mode(cpol, false));
    DecodedExactly(clock, data, Mode(cpol, true));
    CoherenceExactly(DecodedBits(clock, data, Mode(cpol, false)));
    CoherenceExactly(DecodedBits(clock, data, Mode(cpol, true)));
  }

  // ---------------------------------------------------------------------------------------
  // A generated capture, sample by sample
  // ---------------------------------------------------------------------------------------

  /** Four idle half periods and two more under chip select, two for every bit, and the same again. */
  function ClockLevel(bits: nat, mode: Mode, c: nat): bool {
    if 6 <= c < 6 + 2 * bits && c % 2 == (if mode.cpha then 0 else 1) then !mode.cpol else mode.cpol
  }

  function DataLevel(bits: seq<bool>, c: nat): bool {
    6 <= c < 6 + 2 * |bits| && bits[(c - 6) / 2]
  }

  function SelectLevel(bits: nat, c: nat): bool {
    c < 4 || c >= 8 + 2 * bits
  }

  lemma {:induction false} ClockCellAt(bits: seq<bool>, mode: Mode, c: nat)
    requires c < 2 * |bits|
    ensures |ClockCells(bits, mode)| == |DataCells(bits)| == 2 * |bits|
    ensures ClockCells(bits, mode)[c] == if c % 2 == (if mode.cpha then 0 else 1) then !mode.cpol else mode.cpol
    ensures DataCells(bits)[c] == bits[c / 2]
  {
    if |bits| == 1 {
      OneBitCells(bits[0], mode);
      assert bits == [bits[0]];
    } else {
      var rest := bits[1..];
      ClockCellAt(rest, mode, if c < 2 then 0 else c - 2);
      assert ClockCells(bits, mode) == ClockPair(mode) + ClockCells(rest, mode);
      assert DataCells(bits) == [bits[0], bits[0]] + DataCells(rest);
    }
  }

  lemma {:induction false} FramedAt(bits: seq<bool>, mode: Mode, c: nat)
    requires bits != [] && c < 12 + 2 * |bits|
    ensures var clk, data := Framed(mode.cpol, mode.cpol, ClockCells(bits, mode)),
        Framed(false, false, DataCells(bits));
      var cs := Framed(true, false, Fill(false, 2 * |bits|));
      && |clk| == |data| == |cs| == 12 + 2 * |bits|
      && clk[c] == ClockLevel(|bits|, mode, c) && data[c] == DataLevel(bits, c) && cs[c] == SelectLevel(|bits|, c)
  {
    hide ClockCells, DataCells;
    var inside := 6 <= c < 6 + 2 * |bits|;
    ClockCellAt(bits, mode, if inside then c - 6 else 0);
  }

  /** Sample `o` of half period `c` on the three lines; the data line is one sample late when CPHA
      is set. */
  ghost predicate DrawnAt(waves: Waves, bits: seq<bool>, mode: Mode, half: nat, c: nat, o: nat) {
    var i, late := c * half + o, if mode.cpha then 1 else 0;
    && i < |waves.sck| && waves.sck[i] == ClockLevel(|bits|, mode, c)
    && i < |waves.cs| && waves.cs[i] == SelectLevel(|bits|, c)
    && (i + late < |waves.mosi| ==> waves.mosi[i + late] == DataLevel(bits, c))
  }

  lemma {:induction false} WavesAt(bits: seq<bool>, mode: Mode, half: nat, c: nat, o: nat)
    requires bits != [] && half >= 1 && c < 12 + 2 * |bits| && o < half
    ensures DrawnAt(BurstWaves(bits, mode, half), bits, mode, half, c, o)
  {
    hide Framed, ClockCells, DataCells, Stretch, ClockLevel, DataLevel, SelectLevel;
    FramedAt(bits, mode, c);
    StretchCell(Framed(mode.cpol, mode.cpol, ClockCells(bits, mode)), half, c, o);
    StretchCell(Framed(false, false, DataCells(bits)), half, c, o);
    StretchCell(Framed(true, false, Fill(false, 2 * |bits|)), half, c, o);
  }

  /** A half period is half the bit period rounded down, at least one sample; all three lines show
      the payload's bits, most significant first, at these half periods, and a delayed data line
      begins low. */
  lemma {:induction false} CaptureExactly(g: Generator)
    requires g.speed != 0
    ensures g.Signal().Ok?
    ensures var waves, half, period := g.Signal().value, g.HalfPeriod(), Round(g.sampleRate as real / g.speed as real);
      var bits := PayloadBits(if g.payload == [] then [0x55] else g.payload);
      && (if period < 2 then half == 1 else 2 * half <= period < 2 * half + 2)
      && |waves.sck| == |waves.mosi| == |waves.cs| == (12 + 2 * |bits|) * half
      && (forall c: nat, o: nat :: c < 12 + 2 * |bits| && o < half ==> DrawnAt(waves, bits, g.mode, half, c, o))
      && (g.mode.cpha ==> !waves.mosi[0])
  {
    hide Framed, ClockCells, DataCells, Stretch, DrawnAt, Round, PayloadBits;
    var bits, half := PayloadBits(g.Payload()), g.HalfPeriod();
    PayloadBitsLength(g.Payload());
    FramedAt(bits, g.mode, 0);
    StretchLength(Framed(g.mode.cpol, g.mode.cpol, ClockCells(bits, g.mode)), half);
    StretchLength(Framed(false, false, DataCells(bits)), half);
    StretchLength(Framed(true, false, Fill(false, 2 * |bits|)), half);
    MulMonotone(1, 12 + 2 * |bits|, half);
    forall c: nat, o: nat | c < 12 + 2 * |bits| && o < half
      ensures DrawnAt(g.Signal().value, bits, g.mode, half, c, o)
    {
      WavesAt(bits, g.mode, half, c, o);
    }
  }
}
