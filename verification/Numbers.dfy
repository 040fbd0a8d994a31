/** Arithmetic shared by the waveform generators and the decoders: powers of two, the bits of
    an integer, and Python's round-half-to-even (section 4.3.1 of IEEE 754). */
module Numbers {

  function Pow2(n: nat): (p: nat)
    ensures p >= 1
  {
    if n == 0 then 1 else 2 * Pow2(n - 1)
  }

  function Max(a: int, b: int): int {
    if a < b then b else a
  }

  function Min(a: int, b: int): int {
    if a < b then a else b
  }

  function Clamp01(x: real): (r: real)
    ensures 0.0 <= r <= 1.0
    ensures 0.0 <= x <= 1.0 ==> r == x
  {
    if x < 0.0 then 0.0 else if x > 1.0 then 1.0 else x
  }

  /** `round(x)`: the nearest integer; a tie goes to the even neighbour. */
  function Round(x: real): (r: int)
    ensures r as real - 0.5 <= x <= r as real + 0.5
    ensures x == r as real - 0.5 || x == r as real + 0.5 ==> r % 2 == 0
  {
    var f := x.Floor;
    var d := x - f as real;
    if d < 0.5 then f
    else if d > 0.5 then f + 1
    else if f % 2 == 0 then f
    else f + 1
  }

  lemma RoundMonotone(x: real, y: real)
    requires x <= y
    ensures Round(x) <= Round(y)
  {
    // were it false, x and y would be one tie, rounded in two ways
    assert Round(x) > Round(y) ==> x == y;
  }

  lemma RoundOfInteger(n: int)
    ensures Round(n as real) == n
  {
  }

  /** Rounding can be computed from any integer known to be close enough. */
  lemma RoundIs(x: real, n: int)
    requires n as real - 0.5 < x < n as real + 0.5
    ensures Round(x) == n
  {
  }

  /** Bit `i` of a Python integer: `(x >> i) & 1` (the shift floors, also below zero). */
  predicate Bit(x: int, i: nat) {
    x / Pow2(i) % 2 == 1
  }

  /** `byte_bits_lsb_first` (tests/synth.py). */
  function BitsLsb(x: int, width: nat): seq<bool> {
    seq(width, i requires 0 <= i < width => Bit(x, i))
  }

  /** `byte_bits_msb_first` (tests/synth.py). */
  function BitsMsb(x: int, width: nat): seq<bool> {
    seq(width, i requires 0 <= i < width => Bit(x, width - 1 - i))
  }

  /** The number whose bits, least significant first, are `bits`. */
  function ValueLsb(bits: seq<bool>): nat {
    if bits == [] then 0
    else
      var n := |bits| - 1;
      ValueLsb(bits[..n]) + (if bits[n] then Pow2(n) else 0)
  }

  /** The number obtained by shifting `bits` in from the right, most significant first. */
  function ValueMsb(bits: seq<bool>): nat {
    if bits == [] then 0
    else
      var n := |bits| - 1;
      2 * ValueMsb(bits[..n]) + (if bits[n] then 1 else 0)
  }

  lemma RealMulMonotone(c: real, x: real, y: real)
    requires x <= y && c >= 0.0
    ensures c * x <= c * y
  {
    assert c * (y - x) >= 0.0;
  }

  lemma MulSucc(k: int, x: int)
    ensures (k + 1) * x == k * x + x
  {
  }

  lemma MulMonotone(x: int, y: int, c: int)
    requires x <= y && c >= 0
    ensures x * c <= y * c
  {
    assert (y - x) * c >= 0;
  }

  lemma DivModUnique(x: int, d: int, q: int, r: int)
    requires d > 0 && 0 <= r < d && x == q * d + r
    ensures x / d == q && x % d == r
  {
    var q', r' := x / d, x % d;
    assert x == q' * d + r' && 0 <= r' < d;
    assert (q - q') * d == r' - r;
    assert q - q' >= 1 ==> (q - q') * d >= d;
    assert q - q' <= -1 ==> (q - q') * d <= -d;
  }

  lemma DivDiv(x: int, d: int)
    requires d > 0
    ensures x / 2 / d == x / (2 * d)
    ensures x % (2 * d) == 2 * (x / 2 % d) + x % 2
  {
    var h := x / 2;
    var q, r := h / d, h % d;
    assert x == 2 * h + x % 2;
    assert h == q * d + r;
    assert x == q * (2 * d) + (2 * r + x % 2);
    DivModUnique(x, 2 * d, q, 2 * r + x % 2);
  }

  lemma ModSplit(x: int, d: int)
    requires d > 0
    ensures x % (2 * d) == x % d + (if x / d % 2 == 1 then d else 0)
  {
    var q, r := x / d, x % d;
    var h, b := q / 2, q % 2;
    assert x == q * d + r && q == 2 * h + b;
    assert x == (2 * h + b) * d + r;
    assert (2 * h + b) * d == h * (2 * d) + b * d;
    DivModUnique(x, 2 * d, h, b * d + r);
  }

  /** Reading the bits back, least significant first, gives the value modulo the width. */
  lemma {:induction false} BitsLsbRoundTrip(x: int, width: nat)
    ensures ValueLsb(BitsLsb(x, width)) == x % Pow2(width)
  {
    if width > 0 {
      BitsLsbRoundTrip(x, width - 1);
      assert BitsLsb(x, width)[..width - 1] == BitsLsb(x, width - 1);
      ModSplit(x, Pow2(width - 1));
    }
  }

  lemma BitZero(x: int)
    ensures Bit(x, 0) == (x % 2 == 1)
  {
    assert x / 1 == x;
    assert Pow2(0) == 1;
  }

  lemma ZeroBit(i: nat)
    ensures !Bit(0, i)
  {
    DivModUnique(0, Pow2(i), 0, 0);
  }

  lemma BitHalf(x: int, i: nat)
    ensures Bit(x, i + 1) == Bit(x / 2, i)
  {
    DivDiv(x, Pow2(i));
  }

  /** Shifting the bits in, most significant first, gives the value modulo the width. */
  lemma {:induction false} BitsMsbRoundTrip(x: int, width: nat)
    ensures ValueMsb(BitsMsb(x, width)) == x % Pow2(width)
    decreases width
  {
    if width > 0 {
      var w := width - 1;
      forall i | 0 <= i < w ensures BitsMsb(x, width)[i] == BitsMsb(x / 2, w)[i] {
        BitHalf(x, w - 1 - i);
      }
      assert BitsMsb(x, width)[..w] == BitsMsb(x / 2, w);
      BitsMsbRoundTrip(x / 2, w);
      DivDiv(x, Pow2(w));
      assert Pow2(width) == 2 * Pow2(w);
      assert BitsMsb(x, width)[w] == Bit(x, 0);
      BitZero(x);
    }
  }

  lemma {:induction false} ValueLsbBound(bits: seq<bool>)
    ensures ValueLsb(bits) < Pow2(|bits|)
  {
    if bits != [] {
      ValueLsbBound(bits[..|bits| - 1]);
    }
  }

  /** Different bits make different numbers. */
  lemma {:induction false} ValueLsbInjective(a: seq<bool>, b: seq<bool>)
    requires |a| == |b| && ValueLsb(a) == ValueLsb(b)
    ensures a == b
  {
    if a != [] {
      var n := |a| - 1;
      ValueLsbBound(a[..n]);
      ValueLsbBound(b[..n]);
      ValueLsbInjective(a[..n], b[..n]);
      assert a == a[..n] + [a[n]] && b == b[..n] + [b[n]];
    }
  }

  /** Each bit of the number is the bit it was made from. */
  lemma {:induction false} BitOfValue(bits: seq<bool>, i: nat)
    requires i < |bits|
    ensures Bit(ValueLsb(bits), i) == bits[i]
  {
    hide Bit, ValueLsb;
    var value := ValueLsb(bits);
    ValueLsbBound(bits);
    BitsLsbRoundTrip(value, |bits|);
    DivModUnique(value, Pow2(|bits|), 0, value);
    ValueLsbInjective(bits, BitsLsb(value, |bits|));
  }

  /** The bits of a payload, most significant first. */
  function PayloadBits(payload: seq<int>): seq<bool> {
    if payload == [] then []
    else PayloadBits(payload[..|payload| - 1]) + BitsMsb(payload[|payload| - 1], 8)
  }

  lemma {:induction false} PayloadBitsLength(bytes: seq<int>)
    ensures |PayloadBits(bytes)| == 8 * |bytes|
  {
    if bytes != [] {
      PayloadBitsLength(bytes[..|bytes| - 1]);
    }
  }

  lemma {:induction false} PayloadBitsAt(payload: seq<int>, i: nat)
    requires i < |payload|
    ensures |PayloadBits(payload)| == 8 * |payload|
    ensures PayloadBits(payload)[8 * i..8 * i + 8] == BitsMsb(payload[i], 8)
  {
    var n := |payload| - 1;
    PayloadBitsLength(payload);
    PayloadBitsLength(payload[..n]);
    if i < n {
      PayloadBitsAt(payload[..n], i);
    }
  }

  /** The loop `value = (value << 1) | int(b)`. */
  method ShiftIn(bits: seq<bool>) returns (value: nat)
    ensures value == ValueMsb(bits)
  {
    value := 0;
    for i := 0 to |bits|
      invariant value == ValueMsb(bits[..i])
    {
      assert bits[..i + 1][..i] == bits[..i];
      value := 2 * value + (if bits[i] then 1 else 0);
    }
    assert bits[..|bits|] == bits;
  }
}
