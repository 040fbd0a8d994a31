# Slidko signal pipeline, modelled and proved in Dafny

Slidko captures digital lines, finds out which protocol runs on them, decodes it, and flags what
cannot be legal signalling. Its repository contains both ends of almost every wire: waveform
generators and firmware transmitters on one side, edge extractors, decoders and anomaly checks,
written independently, on the other. This project models both ends as they are written and proves
that they agree: for every payload, rate and signal, or exactly when they do.

`dafny verify dfyconfig.toml` checks the whole project.

## How it is organised

| module | what it holds |
|---|---|
| `Numbers`, `Decimals`, `Sorting`, `Results` | bits of integers, Python's round-half-to-even (section 4.3.1 of IEEE 754), decimal numerals, sorting, `Option` and `Result` |
| `Signals`, `PulseLengths`, `SamePolarity`, `Captures` | run-length segments, edges, runs and pulses of a sampled line; the capture record |
| `Uart`, `UartRoundTrip`, `AutoBaud`, `InferUart`, `ExactBaud`, `BaudEvidence` | UART generator and decoder, their drift bound, automatic baud detection, exactly when it is right, and what each part of its answer means |
| `Spi`, `SpiMode`, `SpiInference`, `SpiMeaning` | SPI generator, bit sampler, recognition of polarity and phase, on generated and on any lines |
| `I2c`, `I2cReader` | the bit-bang builder, START/STOP detection, and the bytes a listener reads |
| `Ws2812`, `Dshot`, `DshotMeaning` | pulse-width protocols: generators, fault injection, timing check, frame decoder, firmware encoder, in nanoseconds and bits |
| `Events`, `Smoke`, `SmokeMeaning`, `SmokeTraceability`, `CleanUart`, `CleanProtocols` | decoded events, the smoke detector, what its findings mean, when they reproduce, and when clean captures are silent |
| `Transactions`, `TransactionMeaning`, `Classify`, `ClassifyMeaning` | I2C transaction summaries; greedy channel allocation and roles; both over the events and channels alone |
| `SrFile`, `SrRoundTrip`, `FileMeaning` | session files: packing, chunking, reassembly, and their contents byte by byte |
| `Peripherals`, `FirmwareWaves`, `UartTolerance` | the firmware's bit-banged transmitters as pin-write traces, seen by the host's decoders; exactly when a cell width and a decoder's bit period tolerate each other |
| `JsonFields`, `JsonObjects`, `JsonMeaning`, `Commands`, `Firmware` | the firmware's field scanner, command parser, gates and line loop |

Code that works step by step is a method with loops, or a class whose methods update its fields
(`I2CBuilder`, `Gpio`, `Board`); each is proved equal to a specification function, and the
theorems are about those functions. Code made of expressions is a function. The modules named
`...Meaning`, `...Evidence` and `I2cReader` say what those functions compute in terms of samples,
edges, bits, times, keys and events only.

## Conventions

- A signal is a `seq<bool>`, one element a sample. Python floats are `real`; where the source rounds
  (`round`), the model rounds half to even.
- Exceptions and error returns are `Result` values or, in the firmware, return codes.
- A C string is the sequence of its characters in front of the NUL; a pointer into it is the suffix
  it points at. `long` has 32 bits, as on the firmware's targets.
- Scores that come from autocorrelation are arbitrary functions: the theorems hold for all of them.

## Limits, and where the code and its documentation disagree

The model follows the code; each of these is proved, with the exact condition or a counterexample.

- The UART decoder samples with the exact bit period while the generator rounds it. They agree exactly
  when the last data bit is sampled before, and the stop bit not before, the rounded stop bit begins.
  Ten samples per bit always suffice; nine can fail (949 samples/s at 100 baud).
- When some frame holds a level for one bit only, automatic baud detection names the true rate exactly when
  that rate's exact bit period is nearest to the rounded one, the first of the table winning a tie. From 13
  samples per bit on it always is; at 12 it can be a neighbour's (230400 baud at 2.88 MS/s). Without such a
  lone bit the estimated period is not the bit period (a payload of zero bytes).
- A UART line idles high, but the idle level is taken by majority. A generated 8N1 capture is recognised as
  idling high exactly when twice the set bits of its payload, plus eight, exceed five for every byte: two zero
  bytes already look inverted.
- The firmware holds each UART bit for a whole number of microseconds and leaves no gap between frames, and
  the host resumes behind the end of a frame of exact bit periods. At `rate` samples per microsecond the host
  hears every payload exactly when a bit lasts two samples and `20 * rate * (1000000 % baud) <= baud`: at
  24 MS/s not at 9600 or 115200 baud.
- In modes 2 and 3 the firmware's first clock write is itself a clock edge on freshly initialised pins. The
  clock is confined to chip select exactly when it idles before, or chip select is low by then.
- Clean captures are not always free of runt findings: SPI needs half periods of three samples, I2C quarter
  periods of two.
- The smoke detector is required to flag exactly the injected WS2812 violations. The injector's default
  of 300 ns at 24 MS/s is flagged on one-bits only: it turns a zero into a legal one.
- A runt finding reproduces itself from its evidence window exactly when the line does not change again
  one sample behind it.
- The firmware's line loop says it drops an overlong line. It drops the front of the line: the last
  `length % 256` characters are handled as a command of their own.
- A command's 32-bit fields, its id included, come back exactly up to 2^31 - 1; larger ones saturate.
- An I2C NAK can be missing from the transaction summaries although the orphan check is silent, when an
  address event precedes every start condition.

## Model

| member | source | states |
|---|---|---|
| Signals.ExtractEdges | src/slidko/measure/edges.py:4-36 | the loop returns the edges of the signal as `Edges` defines them |
| Signals.EdgesExact | src/slidko/measure/edges.py:4-36 | exactly the level changes are reported, once each, in increasing order, with their polarity |
| Signals.EdgesAlternate | src/slidko/measure/edges.py:4-36 | neighbouring edges have opposite polarity and the line is constant between them |
| Signals.EdgesOfWindow | src/slidko/measure/edges.py:4-36 | extracting edges from a slice gives the edges strictly inside it, renumbered |
| Signals.EdgesStretch | src/slidko/measure/edges.py:4-36 | holding every level for a cell moves the edges to cell boundaries and adds none |
| Signals.EncodeExpand | tests/synth.py:68-86 | run-length encoding an expanded segment list gives the list with empty segments dropped and equal neighbours merged |
| Signals.ExpandEncode | tests/synth.py:78-86 | expanding a run-length encoded signal gives the signal back, without empty runs |
| Numbers.BitsLsbRoundTrip | tests/synth.py:93-94 | reading the bits back least significant first gives the value modulo the width |
| Numbers.BitsMsbRoundTrip | tests/synth.py:89-90 | shifting the bits in most significant first gives the value modulo the width |
| Numbers.ShiftIn | src/slidko/measure/dshot.py:85-87 | the shifting loop computes the number whose bits, most significant first, are given |
| SamePolarity.PeriodsExactly | src/slidko/measure/edges.py:98-111 | on every signal the result is sorted and is, as a multiset, the sums of neighbouring intervals |
| PulseLengths.MeasureHighPulses | src/slidko/measure/edges.py:66-95 | the scan behind each rising edge returns the high pulse lengths `HighPulses` defines |
| PulseLengths.HighPulsesAreRuns | src/slidko/measure/edges.py:66-95 | the pulse lengths are the lengths of the high runs that do not begin the signal |
| PulseLengths.SamplesExactly | tests/synth.py:439-461 | a time becomes the product of time and rate, rounded, in samples |
| Uart.Generator.Generate | tests/synth.py:163-195 | the generated signal holds every level of the line for the rounded bit period, or the rate is refused |
| Uart.FrameSegments | tests/synth.py:146-161 | one frame is start, data least significant first, parity by counted ones, stop, one segment each |
| Uart.DecodeByte | src/slidko/decode/native_uart.py:97-139 | the data loop assembles the value of the midpoint samples; a cut-off frame gives none |
| Uart.ScanSignal | src/slidko/decode/native_uart.py:66-94 | the scan loop returns the events `Scan` defines |
| Uart.Decode | src/slidko/decode/native_uart.py:32-94 | refuses other formats and rates above the sample rate, else scans from sample 1 |
| Uart.FrameExactly | tests/synth.py:146-161 | a frame is a low start bit, the data bits least significant first, a parity bit that makes the ones even or odd, and high stop bits |
| Uart.LineExactly | tests/synth.py:163-195 | the line is high for four bits, shows every frame with three high bits behind it, and is high for four bits again |
| Uart.GeneratedExactly | tests/synth.py:163-195 | a zero rate and a bit below half a sample are refused; else every level of the line lasts the rounded bit |
| Uart.DecodedExactly | src/slidko/decode/native_uart.py:32-94 | a format is taken if and only if it has eight data bits, no parity, and one stop bit up to a billionth; a zero rate and a rate above the sample rate are refused |
| UartRoundTrip.ScanIsFaithful | src/slidko/decode/native_uart.py:66-94 | on every signal each event starts at a falling edge and is what the frame decoder returns there |
| UartRoundTrip.ScanReads | src/slidko/decode/native_uart.py:66-139 | on every signal each bit of an event is the sample in the middle of its bit, it is flagged if the middle of the stop bit is low, it ends after ten bit periods, and printable values carry their character |
| UartRoundTrip.ScanIsOrdered | src/slidko/decode/native_uart.py:66-94 | on every signal event windows are disjoint and strictly ordered |
| UartRoundTrip.ScanIsComplete | src/slidko/decode/native_uart.py:66-94 | every falling edge starts an event, lies inside one, or belongs to a frame cut off by the end |
| UartRoundTrip.DataBitInCell | src/slidko/decode/native_uart.py:121-139 | under the alignment condition every data bit is sampled inside its own cell despite the drift |
| UartRoundTrip.ResumeInGap | src/slidko/decode/native_uart.py:66-94 | the scan resumes between the last falling edge of a frame and the next start |
| UartRoundTrip.TenSamplesSuffice | src/slidko/decode/native_uart.py:60-64 | ten rounded samples per bit satisfy the alignment condition |
| UartRoundTrip.WholePeriodsSuffice | src/slidko/decode/native_uart.py:60-64 | a whole bit period of at least two samples satisfies the alignment condition |
| UartRoundTrip.AlignedRoundTrip | src/slidko/decode/native_uart.py:32-94 | decoding a generated 8N1 line returns exactly its bytes, at their true start edges, without framing error |
| UartRoundTrip.RoundTripExactly | src/slidko/decode/native_uart.py:32-94 | every payload round-trips if and only if the alignment condition on the two rates holds |
| UartRoundTrip.NineSamplesCanFail | src/slidko/decode/native_uart.py:60-64 | a rate pair with nine samples per bit that loses a payload |
| AutoBaud.PeriodExactly | src/slidko/measure/uart.py:62-77 | on a signal made of cells the estimate is the cell length if and only if some level lasts a single cell |
| AutoBaud.PayloadPeriodExactly | src/slidko/measure/uart.py:62-77 | on a generated capture the estimate is the bit period if and only if some payload byte has a lone bit |
| AutoBaud.OddByteHasLoneBit | src/slidko/measure/uart.py:62-77 | an odd byte has a lone start bit |
| InferUart.SnapIsExact | src/slidko/measure/uart.py:85-93 | a raw rate within 1/26 of a table rate snaps to that rate and its frame |
| InferUart.CheckStartBitFraming | src/slidko/measure/uart.py:96-125 | for any edge list the nested loops compute the share of departures from idle that fit the bit grid |
| InferUart.CellFramingIsPerfect | src/slidko/measure/uart.py:96-125 | every departure of a signal made of cells scores |
| InferUart.InferUart | src/slidko/measure/uart.py:128-149 | the inference returns the rate, format, confidence and idle level that its pieces define, also for silent channels |
| InferUart.TwelveSamplesCanFail | src/slidko/measure/uart.py:85-93 | a table rate that is misread at twelve samples per bit |
| ExactBaud.NamedExactly | src/slidko/measure/uart.py:85-93 | on any channel, whatever period is estimated, a table rate is named if and only if its bit period is the first of those nearest to the estimate |
| ExactBaud.BaudExactly | src/slidko/measure/uart.py:128-149 | on a generated capture with a lone bit the true rate is named if and only if the rounded bit period snaps to it; then the format is the table's for that rate and the confidence at least 1 - 50/(3 B) at B samples per bit |
| ExactBaud.ThirteenSamplesSnap | src/slidko/measure/uart.py:85-93 | from 13 samples per bit on every table rate snaps to itself |
| ExactBaud.UnaidedExactly | src/slidko/measure/uart.py:128-149 | generating, inferring without parameters and decoding with the result returns every payload that has a lone bit if and only if the decoder's alignment condition holds and the rounded bit period snaps to the rate |
| ExactBaud.ThirteenSamplesSuffice | src/slidko/measure/uart.py:128-149 | from 13 samples per bit on every payload with a lone bit is recovered without parameters |
| BaudEvidence.EstimateExactly | src/slidko/measure/uart.py:62-77 | on any edge list the estimate is the mean of the intervals, each divided by the multiple of the shortest that is nearest to it |
| BaudEvidence.IdleExactly | src/slidko/measure/uart.py:80-82 | on any channel the idle level is high if and only if more samples are high than low |
| BaudEvidence.IdleOfCapture | src/slidko/measure/uart.py:80-82 | on a generated capture of any format it is high if and only if the high cells outnumber the low ones, a closed form in the ones of its frames |
| BaudEvidence.IdleOfEightNOne | src/slidko/measure/uart.py:80-82 | for 8N1 that is twice the set bits plus eight exceeding five for every byte; two zero bytes are misread |
| BaudEvidence.CleanExactly | src/slidko/measure/uart.py:96-125 | a run scores if and only if it lies less than 0.15 of a bit off one bit or more, so never below 0.85 of a bit |
| BaudEvidence.FramingExactly | src/slidko/measure/uart.py:96-125 | the framing score of any channel is the share of its departures from idle whose run scores, zero without a period or departure |
| BaudEvidence.ConfidenceExactly | src/slidko/measure/uart.py:128-149 | on any channel the confidence falls linearly to zero at three percent off the named rate, from half of one plus the framing score; the clamps never bite |
| BaudEvidence.NoPeriodNoRate | src/slidko/measure/uart.py:128-149 | without a bit period no rate is named, with confidence zero |
| Spi.Generator.Generate | tests/synth.py:346-395 | the three lines are the framed clock, data and select cells, the data delayed by a sample when CPHA is set |
| SpiMeaning.CaptureExactly | tests/synth.py:346-395 | sample by sample: four idle half periods and two under chip select, two for every bit with the clock active in the second or, with CPHA, the first, and the same again; the data line is a sample late with CPHA |
| SpiMode.DecodeBits | src/slidko/measure/spi.py:104-119 | the loop returns the data level at each edge of the sampling phase |
| SpiMode.PhaseTheorem | src/slidko/measure/spi.py:104-119 | in the right mode a generated capture reads as its payload; in the wrong phase as exactly a one-bit shift of it |
| SpiInference.CoherenceScore | src/slidko/measure/spi.py:122-138 | the nested loops compute the share of printable bytes |
| SpiInference.DetectCpha | src/slidko/measure/spi.py:141-156 | both phases are decoded and the better scored one returned, clear winning a tie |
| SpiInference.PhaseInference | src/slidko/measure/spi.py:141-156 | on printable text CPHA 0 is always recognised, CPHA 1 if and only if some byte gives it away, and a wrong answer has confidence 0 |
| SpiInference.PolarityRecovered | src/slidko/measure/spi.py:96-101 | the polarity of every generated capture is recovered from the idle clock |
| SpiInference.FullyConfined | src/slidko/measure/spi.py:70-93 | a generated chip select is fully confining: two transitions, no clock edge outside |
| SpiInference.ModeRecovered | src/slidko/measure/spi.py:159-186 | with the roles known the whole mode is recovered when the payload reveals the phase |
| SpiMeaning.DecodedExactly | src/slidko/measure/spi.py:104-119 | on any two lines the decode is the data at exactly the clock changes to the sampling level, the first sample being ignored |
| SpiMeaning.PolarityExactly | src/slidko/measure/spi.py:96-101 | on any two lines the polarity is the majority clock level while chip select is high, or overall if it never is |
| SpiMeaning.CoherenceExactly | src/slidko/measure/spi.py:122-138 | the score is the share of whole bytes between 0x20 and 0x7E, zero below eight bits |
| SpiMeaning.ModeExactly | src/slidko/measure/spi.py:141-156 | the phase that scores more is reported, phase 0 on a tie, with the difference as confidence |
| I2c.I2CBuilder.constructor | tests/synth.py:206-209 | a new builder has emitted nothing |
| I2c.I2CBuilder.Emit | tests/synth.py:211-213 | both segment lists grow by one phase |
| I2c.I2CBuilder.Idle | tests/synth.py:215-216 | appends the idle phase |
| I2c.I2CBuilder.Start | tests/synth.py:218-221 | appends the phases of a start condition |
| I2c.I2CBuilder.DataBit | tests/synth.py:223-226 | appends the three phases of a bit |
| I2c.I2CBuilder.Byte | tests/synth.py:228-235 | appends eight bits most significant first, the acknowledge bit and the stretch |
| I2c.I2CBuilder.Stop | tests/synth.py:237-240 | appends the phases of a stop condition |
| I2c.I2CBuilder.Perform | tests/synth.py:203-240 | any sequence of calls appends the phases of its script |
| I2c.I2CBuilder.Build | tests/synth.py:242-250 | expands both lists into the two lines |
| I2c.DetectStartStop | src/slidko/measure/i2c.py:38-54 | the loop returns the SDA edges under a high SCL, split by direction |
| I2c.ScriptExact | src/slidko/measure/i2c.py:38-54 | for every sequence of builder calls exactly one START per start call and one STOP per stop call, at their offsets, in order |
| I2c.TransactionExact | tests/synth.py:274-303 | a generated transaction shows one START and one STOP at known places whatever the payload and stretching |
| I2cReader.ReadsRises | tests/synth.py:223-226 | what a listener reads is SDA at the rising edges of SCL |
| I2cReader.ByteHeard | tests/synth.py:228-235 | whatever came before, SDA sampled at the clock edges of a byte call gives its eight bits, most significant first, and a ninth that is low if and only if it is acknowledged |
| I2cReader.TransactionHeard | tests/synth.py:274-303 | from a whole generated capture a listener reads the address byte and the payload, nine bits each, all acknowledged |
| I2cReader.TransactionRead | tests/synth.py:274-303 | between its one START and its one STOP a capture carries exactly these bytes for any address, direction, payload and stretching; a quarter period is the bit period by four rounded down, at least one sample |
| PulseLengths.SpacedPulses | src/slidko/measure/edges.py:66-95 | expanding spaced segments gives a capture whose pulses are their high counts |
| Ws2812.Generator.Generate | tests/synth.py:439-461 | the signal is the lead, one high/low pair per payload bit and the reset, expanded |
| Ws2812.CaptureExactly | tests/synth.py:439-461 | every byte is eight pulses, most significant bit first, of 800 ns for a one and 400 ns for a zero, a bit lasting 1250 ns, between one bit of silence and a reset of 60 us |
| Ws2812.TimingExactly | src/slidko/measure/smoke.py:136-189 | on every signal exactly the complete pulses outside both windows are reported, in order, with their lengths |
| Ws2812.PulsesAreHigh | src/slidko/measure/smoke.py:136-189 | on a signal that begins low those pulses are its high runs |
| Ws2812.GeneratedTimingExactly | tests/synth.py:439-461 | a generated capture is reported at exactly the bits whose rounded high time leaves both windows |
| Ws2812.FineTrainsAreSilent | src/slidko/measure/smoke.py:136-189 | with a sample period of at most 300 ns no payload is reported |
| Ws2812.InjectionLengthens | tests/synth.py:747-772 | an injection lengthens one run of the capture and changes no other |
| Ws2812.InjectionExactly | tests/synth.py:747-772 | into any capture: the run of the bit, counted from the end when negative, must be high and not the last; it alone grows, by the rounded violation time or one sample; each refusal has its condition |
| Ws2812.InjectedTimingExactly | src/slidko/measure/smoke.py:136-189 | after any injections into any capture, exactly the pulses whose lengthened time leaves both windows are reported |
| Ws2812.InjectedBitsExactly | src/slidko/measure/smoke.py:136-189 | on a finely sampled generated capture the reported bits are exactly the injected ones whose time leaves both windows |
| Ws2812.SingleInjection | tests/synth.py:747-772 | what one injection makes the check report: that bit or nothing |
| Ws2812.DefaultViolationMissesZeros | tests/synth.py:747-772 | at 24 MS/s the default violation is reported if and only if the bit is a one |
| Dshot.Generator.Generate | tests/synth.py:550-606 | the signal is a gap and the repeated frames, most significant bit first; bad rates and values are refused |
| Dshot.DecodeFrame | src/slidko/measure/dshot.py:71-94 | reads the first 16 pulses through the threshold and shifts them in, or reports none |
| Dshot.FrameRoundTrip | src/slidko/measure/dshot.py:25-27 | reading a frame back gives its value and telemetry with a good checksum, in 16 bits |
| Dshot.ResolvableRoundTrip | src/slidko/measure/dshot.py:71-94 | when the pulse lengths are resolvable every value, telemetry bit and repeat count is recovered |
| Dshot.RoundTripExactly | src/slidko/measure/dshot.py:71-94 | every frame is recovered if and only if the pulse lengths are resolvable at the sample rate |
| Dshot.FineEnoughIsResolvable | src/slidko/measure/dshot.py:13-18 | a sample period below the low time of a one is enough, for each rate |
| Dshot.EncodeFrame | firmware/src/protocol/timing.c:44-54 | the folding loop builds the frame `EncodedFrame` defines, in 16 bits |
| Dshot.EncoderAgreesExactly | firmware/src/protocol/timing.c:44-54 | the firmware's frame is the host's if and only if the value fits 11 bits |
| Dshot.EncoderRoundTrip | firmware/src/protocol/timing.c:44-54 | the host reads the firmware's frame back |
| DshotMeaning.ChecksumExactly | src/slidko/measure/dshot.py:25-27 | each checksum bit is the parity of the same bit of the three nibbles |
| DshotMeaning.TableExactly | src/slidko/measure/dshot.py:13-18 | three rates are known; a one is high for three quarters of the nominal bit, a zero for half as long |
| DshotMeaning.DecodedExactly | src/slidko/measure/dshot.py:71-94 | on any capture pulses 0 to 10 are the value, pulse 11 the telemetry bit, and the frame is sound if and only if pulses 12 to 15 are the parities; below sixteen pulses there is no frame |
| DshotMeaning.EncoderExactly | firmware/src/protocol/timing.c:44-54 | for any 16-bit value the frame holds the low twelve bits of value and telemetry above the checksum of all sixteen |
| DshotMeaning.CaptureExactly | tests/synth.py:550-606 | a generated capture holds the frame in sixteen pulses for every repetition, most significant bit first, and lasts as long as its frames and the 2000 ns gaps around them |
| Smoke.DetectEdgeChatter | src/slidko/measure/smoke.py:48-101 | the nested scan returns the findings of the fast runs |
| Smoke.DetectRuntPulses | src/slidko/measure/smoke.py:104-133 | returns one finding per interval of at most two samples |
| Smoke.DetectWs2812Timing | src/slidko/measure/smoke.py:136-189 | returns one finding per edge pair outside both windows |
| Smoke.DetectOrphans | src/slidko/measure/smoke.py:243-273 | the automaton flags every acknowledge or data event without an addressed device |
| Smoke.RunSmoke | src/slidko/measure/smoke.py:320-352 | all checks in order on their channels; a missing WS2812 channel is an error |
| SmokeMeaning.RuntsExactly | src/slidko/measure/smoke.py:104-133 | exactly the edge pairs at most two samples apart are reported, once each and in order |
| SmokeMeaning.ChatterExactly | src/slidko/measure/smoke.py:48-101 | exactly the longest stretches of at least three intervals under a quarter of the bit period are reported, with their number and average |
| SmokeMeaning.ViolationsExactly | src/slidko/measure/smoke.py:136-189 | exactly the edge pairs whose high time is not within 150 ns of 400 ns or 800 ns are reported, in bit order |
| SmokeMeaning.OrphansExactly | src/slidko/measure/smoke.py:243-273 | exactly the acknowledge, refusal and data events without an address since the last start or stop are reported |
| SmokeMeaning.RunExactly | src/slidko/measure/smoke.py:320-352 | a run is every channel's runts and, on the clock or assigned lines, its chatter, then the WS2812 timing of the assignments, then the incoherence; it fails if and only if a WS2812 assignment names a missing channel |
| SmokeTraceability.ChatterIsMaximalRuns | src/slidko/measure/smoke.py:48-101 | the reported bursts are exactly the maximal runs of at least three fast intervals |
| SmokeTraceability.ChatterIsOrdered | src/slidko/measure/smoke.py:48-101 | bursts are reported in order and never share or touch an interval |
| SmokeTraceability.ChatterReplays | tests/measure/test_run_smoke.py:194-224 | re-running on the evidence window reports exactly the finding again |
| SmokeTraceability.RuntReplays | tests/measure/test_run_smoke.py:227-242 | re-running reports exactly the finding again if and only if no edge follows one sample behind it, else two findings |
| SmokeTraceability.RuntReplayCanFail | tests/measure/test_run_smoke.py:227-242 | a signal whose runt finding does not reproduce alone |
| SmokeTraceability.TimingReplays | tests/measure/test_run_smoke.py:245-262 | re-running always reports exactly the finding again, as bit 0 |
| SmokeTraceability.FramingExactly | src/slidko/measure/smoke.py:206-240 | incoherence is reported if and only if a frame is bad, over the span of the bad frames |
| SmokeTraceability.FramingReplays | tests/measure/test_run_smoke.py:265-299 | re-running on the events in the window gives one finding with the same window and error count |
| CleanUart.RuntsExactly | src/slidko/measure/smoke.py:104-133 | the runt check is silent if and only if every interval is longer than two samples |
| CleanUart.CleanUartIsSilent | src/slidko/measure/smoke.py:320-352 | generated, decoded and checked with its own events, a UART capture is silent if and only if bits last three samples or no bit stands alone |
| CleanUart.TenSamplesAreSilent | src/slidko/measure/smoke.py:320-352 | from ten samples per bit on every payload is silent |
| CleanProtocols.QuietExactly | src/slidko/measure/smoke.py:104-133 | on every signal the runt check is silent if and only if no two level changes are within two samples |
| CleanProtocols.SpiIsQuietExactly | src/slidko/measure/smoke.py:104-133 | for every payload and mode a generated SPI capture is free of runts on all three lines if and only if a half period lasts three samples |
| CleanProtocols.I2cIsQuietExactly | src/slidko/measure/smoke.py:104-133 | for every address, payload and stretching a generated I2C capture is free of runts on both lines if and only if a quarter period lasts two samples |
| CleanProtocols.Ws2812IsQuietExactly | src/slidko/measure/smoke.py:104-133 | a generated WS2812 capture, whose phases last at least a sample, is free of runts if and only if every high phase of its bits and every low phase but the last lasts three samples |
| CleanProtocols.DshotIsQuietExactly | src/slidko/measure/smoke.py:104-133 | a generated DShot capture, whose phases and gaps last at least a sample, is free of runts if and only if the phases of its frames, and the lows that the gaps between frames prolong, last three samples |
| Transactions.SplitSpans | src/slidko/narrate/transaction_summary.py:27-52 | the splitting loop returns the spans `Spans` defines |
| Transactions.SpansAreTransactions | src/slidko/narrate/transaction_summary.py:27-52 | one span per start, in order, each the whole stretch up to its stop, the next start or the end, with its last address |
| Transactions.SpansDisjoint | src/slidko/narrate/transaction_summary.py:27-52 | no event lies in two spans |
| Transactions.CoveredExactly | src/slidko/narrate/transaction_summary.py:27-52 | an event lies in some span if and only if a start precedes it with no stop in between |
| Transactions.GroupByAddress | src/slidko/narrate/transaction_summary.py:54-59 | the grouping loop returns the groups `Grouped` defines |
| Transactions.GroupsExactly | src/slidko/narrate/transaction_summary.py:54-59 | one group per address, holding exactly the spans to it in order |
| Transactions.Summarize | src/slidko/narrate/transaction_summary.py:6-93 | the whole function returns the summaries `Summaries` defines |
| Transactions.SummariesExactly | src/slidko/narrate/transaction_summary.py:61-93 | each address is summarized once, counts all its spans, and lists their events in strictly increasing order |
| TransactionMeaning.SummariesDescribe | src/slidko/narrate/transaction_summary.py:61-93 | over the events alone: each summary lists exactly the events of the transactions to its address, counts the transactions and the NAKs among them; every address has one, in the order of first transactions |
| Transactions.NaksConservedExactly | src/slidko/narrate/transaction_summary.py:61-65 | NAK counts never exceed the NAK events and equal them if and only if every NAK lies in a stretch of events, from a start up to the next start, stop or the end, in which the last address is known |
| Transactions.SilentOrphansConserveNaks | src/slidko/measure/smoke.py:243-273 | no orphans and well placed addresses imply that no NAK is lost |
| Transactions.SilentOrphansCanLoseNaks | src/slidko/measure/smoke.py:243-273 | without the placement a NAK can be lost although no orphan is reported |
| Classify.FindBest | src/slidko/measure/classify.py:143-150 | the loop keeps the first claim of highest confidence |
| Classify.BestExactly | src/slidko/measure/classify.py:143-150 | the choice is beaten by no group, and by no earlier group equalled; none exists only if no group scores |
| Classify.RunPhase | src/slidko/measure/classify.py:140-155 | one greedy loop returns the claims and the remaining channels of `Greedy`, and terminates |
| Classify.PhasePartitions | src/slidko/measure/classify.py:140-155 | the chosen groups and the rest split the channel names; each choice is the scorer's claim for its group |
| Classify.PhaseNonIncreasing | src/slidko/measure/classify.py:140-155 | confidences never rise within a phase |
| Classify.PhaseExhausts | src/slidko/measure/classify.py:151-153 | when a phase ends no group of its size among the rest scores |
| Classify.ClassifyChannels | src/slidko/measure/classify.py:127-175 | triples, then pairs, then single channels, as `Choices` defines |
| Classify.ChoicesApart | src/slidko/measure/classify.py:127-137 | for arbitrary scorers no channel is in two groups |
| Classify.RolesPermuteNames | src/slidko/measure/spi.py:43-67 | for every periodicity measure an SPI or I2C claim gives each channel of its group one role, at or above the threshold |
| Classify.I2cPermutes | src/slidko/measure/i2c.py:57-79 | an I2C claim names its two channels once each |
| Classify.ClassificationIsExclusive | src/slidko/measure/classify.py:127-175 | no channel name occurs twice, within a claim or across claims |
| ClassifyMeaning.CombinationsExactly | src/slidko/measure/classify.py:143-146 | the groups that are tried are those at the listed picks of positions, one for one |
| ClassifyMeaning.PicksAscend | src/slidko/measure/classify.py:143-146 | the picks come in lexicographic order |
| ClassifyMeaning.PicksComplete | src/slidko/measure/classify.py:143-146 | and none is left out |
| ClassifyMeaning.ChoicesExactly | src/slidko/measure/classify.py:127-175 | triples first, then pairs of what they leave, then single channels; each step takes the best group among the channels left, until none scores |
| ClassifyMeaning.WindowExactly | src/slidko/measure/edges.py:47-63 | the window runs from the first level change of either channel to just behind the last |
| ClassifyMeaning.SameWindow | src/slidko/measure/edges.py:47-63 | only one window is such |
| ClassifyMeaning.ClockExactly | src/slidko/measure/i2c.py:57-79 | the more periodic channel over that window is the clock, the first on a tie |
| ClassifyMeaning.SelectExactly | src/slidko/measure/spi.py:43-67 | chip select is the first channel with the fewest level changes |
| ClassifyMeaning.ConfinementExactly | src/slidko/measure/spi.py:70-93 | confinement is how close chip select comes to two changes, times the share of clock edges that find it low |
| ClassifyMeaning.MarksExactly | src/slidko/measure/i2c.py:38-54 | on any two lines the conditions are exactly the SDA changes under a clock that stays high, in order |
| ClassifyMeaning.StructureExactly | src/slidko/measure/i2c.py:82-107 | the structure that an I2C claim needs is as many starts as stops, and at least one |
| ClassifyMeaning.SpiClaimExactly | src/slidko/measure/classify.py:107-124 | an SPI claim names these roles with spread times confinement as its confidence, if that is at least 0.4 |
| ClassifyMeaning.I2cClaimExactly | src/slidko/measure/classify.py:93-104 | an I2C claim names these roles with the spread as its confidence, if that is at least 0.4 and there are as many starts as stops and at least one |
| SrFile.Pack | src/slidko/capture/srfile.py:72-78 | fills the columns in order or fails on the ninth or a mismatched one |
| SrFile.Write | src/slidko/capture/srfile.py:39-91 | the session holds the metadata and the chunks of the packed stream |
| SrFile.SplitBytes | src/slidko/capture/srfile.py:80-91 | the chunk loop cuts the stream into numbered members, one empty one for an empty stream |
| SrFile.ChunkNameRoundTrip | src/slidko/capture/srfile.py:23-23 | the number in a chunk name is read back |
| SrRoundTrip.ChunksExact | src/slidko/capture/srfile.py:80-91 | the chunks are numbered in order and joined give the stream |
| SrRoundTrip.Reassembles | src/slidko/capture/srfile.py:108-112 | selecting, sorting by number and joining undoes any reordering and interleaving |
| SrRoundTrip.UnpackPacked | src/slidko/capture/srfile.py:114-121 | unpacking the packed stream gives every channel back bit for bit |
| SrRoundTrip.WritableExactly | src/slidko/capture/srfile.py:72-78 | equally long channels can be written if and only if there are at most eight or no samples |
| SrRoundTrip.SessionRoundTrip | src/slidko/capture/srfile.py:94-137 | for any chunk size and any order and company of the members, reading returns the capture that was written |
| FileMeaning.PackedExactly | src/slidko/capture/srfile.py:72-78 | bit c of byte j is sample j of channel c, the bits above are zero; the first column that cannot be filled decides the error |
| FileMeaning.WrittenExactly | src/slidko/capture/srfile.py:39-91 | the metadata names the channels, the rate and one byte a sample; the chunks have the chunk size each, or the whole stream, and are numbered from one |
| FileMeaning.ChunkNumberExactly | src/slidko/capture/srfile.py:23-23 | exactly the prefix and digits, perhaps with a newline, name a chunk |
| FileMeaning.SortExactly | src/slidko/capture/srfile.py:108-112 | for any archive the chunks are joined by rising number, names of one number in their order |
| FileMeaning.UnpackedExactly | src/slidko/capture/srfile.py:114-121 | from any stream and unit size channel i gets bit i of every whole sample |
| Peripherals.Gpio.SpiSendBit | firmware/src/hw/peripherals.c:55-70 | the pin writes of one bit, in both phases |
| Peripherals.Gpio.SpiTx | firmware/src/hw/peripherals.c:72-97 | the pin writes of a transfer are `SpiTrace` of its payload, numbered mode and speed |
| Peripherals.Gpio.UartPutBit | firmware/src/hw/peripherals.c:102-106 | one level write, complemented when inverted, and one wait |
| Peripherals.Gpio.UartSendByte | firmware/src/hw/peripherals.c:108-127 | the writes of one byte are the generator's frame levels for the same format |
| Peripherals.Gpio.UartTx | firmware/src/hw/peripherals.c:129-139 | idle, then the frames of the payload without gaps, each bit for the truncated period |
| FirmwareWaves.SpiToHost | firmware/src/hw/peripherals.c:72-97 | whatever the pins were before, the host's sampler reads the payload from the firmware's trace, and the clock ends idle |
| FirmwareWaves.SpiTxHeard | firmware/src/hw/peripherals.c:72-97 | for each mode number a host that samples in the mode of that number reads the payload; the clock rests high in modes 2 and 3, low in the others, before and after the burst |
| FirmwareWaves.SpiTxDraws | firmware/src/hw/peripherals.c:72-97 | for each mode number and speed the lines are exactly the generator's clock and data cells at 500000 / speed microseconds, at least one, a half period, under a low chip select |
| FirmwareWaves.SpiTxWrites | firmware/src/hw/peripherals.c:72-97 | chip select is written high, low and high; the clock its idle level and one pulse a bit; the data line the payload, most significant bit first |
| FirmwareWaves.SpiClockConfinedExactly | firmware/src/hw/peripherals.c:72-97 | for every state of the pins before, the clock moves only while chip select is low if and only if the clock was at its idle level or chip select low before the first write |
| FirmwareWaves.UartLine | firmware/src/hw/peripherals.c:108-139 | between its writes the line shows the generator's levels, each for exactly the firmware's bit period, complemented when inverted, and stays at the last |
| FirmwareWaves.UartTxDraws | firmware/src/hw/peripherals.c:129-139 | for every rate, format and inversion the line idles and then carries the frames back to back, each bit for 1000000 / baud whole microseconds |
| UartTolerance.ToleratesExactly | src/slidko/decode/native_uart.py:60-94 | on a line that idles for a sample first, for any cell width and any bit period of the decoder, every payload sent back to back is decoded at its true start edges without framing error if and only if every data bit and the stop bit is sampled in its own cell and a frame ends before the next start |
| UartTolerance.NarrowTolerates | src/slidko/decode/native_uart.py:60-94 | for a cell no wider than the period that condition is two samples per cell and the frame's end |
| UartTolerance.HostHearsExactly | firmware/src/hw/peripherals.c:129-139 | the host decodes every payload of the firmware's transmitter at the nominal rate if and only if a bit lasts two samples and the truncated microseconds of a frame stay below half a sample |
| UartTolerance.CommonRatesCanFail | firmware/src/hw/peripherals.c:129-139 | at 24 MS/s some payload is lost at 9600 and at 115200 baud, none at 10000 |
| JsonFields.FindValue | firmware/src/protocol/parser.c:14-34 | the quote-to-quote scan finds the first place where the quoted key and a colon stand |
| JsonFields.JsonGetInt | firmware/src/protocol/parser.c:36-48 | a sign or digits are read and saturated; anything else is refused |
| JsonFields.JsonGetBool | firmware/src/protocol/parser.c:50-64 | reads the two literals by their prefix |
| JsonFields.JsonGetString | firmware/src/protocol/parser.c:66-82 | writes stay inside the buffer, bytes behind the text keep their value, success means the text and its NUL fit |
| JsonFields.CheckObject | firmware/src/protocol/parser.c:87-100 | the shape check looks at the first and last character that is no blank |
| JsonObjects.FindInPrinted | firmware/src/protocol/parser.c:14-34 | in every printed flat object a key is found if and only if it is a key of the object, on its own value |
| JsonObjects.IntInPrinted | firmware/src/protocol/parser.c:36-48 | an integer field reads as its number, saturated to a C long; other fields are refused |
| JsonObjects.FlagInPrinted | firmware/src/protocol/parser.c:50-64 | a boolean field reads as its value; other fields are refused |
| JsonObjects.TextInPrinted | firmware/src/protocol/parser.c:66-82 | a string field is copied if it fits with its NUL, else its front is left without success |
| JsonObjects.PrintedLooksLikeObject | firmware/src/protocol/parser.c:87-100 | every printed object passes the shape check |
| JsonObjects.ShapeExactly | firmware/src/protocol/parser.c:87-100 | a text passes if and only if it is an opening brace behind spaces and tabs, anything, and a closing brace in front of spaces, tabs and line ends |
| JsonMeaning.FindExactly | firmware/src/protocol/parser.c:14-34 | in any text a key is found at the first place where it stands quoted in front of a colon |
| JsonMeaning.IntExactly | firmware/src/protocol/parser.c:36-48 | a value is a number if and only if it begins with digits or a minus sign and digits, saturated to 32 bits |
| JsonMeaning.GetIntExactly | firmware/src/protocol/parser.c:36-48 | an integer field is what the value behind its key spells |
| JsonMeaning.GetBoolExactly | firmware/src/protocol/parser.c:50-64 | a boolean field is what its value begins with |
| JsonMeaning.GetStringExactly | firmware/src/protocol/parser.c:66-82 | a string field succeeds if and only if its value is quoted and fits with its NUL |
| Commands.ParseCommand | firmware/src/protocol/parser.c:102-263 | on the printed text of any object the outcome is what the object says, key by key, as `Describes` spells out; any text fills id, kind, assertion and fields or fails with the best-effort id |
| Commands.FillCommand | firmware/src/protocol/parser.c:142-261 | the switch fills exactly the fields of each kind of command |
| Commands.PrintedDescribed | firmware/src/protocol/parser.c:102-263 | parsing succeeds if and only if the id is a number and the name one of the ten; the name decides the kind, and every field is the number or text under its own key for the kinds that have it, else zero, in any field order and spacing |
| Commands.FieldRecoveredExactly | firmware/src/protocol/parser.c:36-48 | a 32-bit field comes back if and only if it is at most 2^31 - 1 |
| Commands.PayloadRecoveredExactly | firmware/src/protocol/parser.c:189-191 | a payload and its length come back if and only if it has at most 63 characters; a longer one leaves its front under length zero |
| Firmware.Board.constructor | firmware/src/main.c:173-181 | the board starts with an empty line and has answered nothing |
| Firmware.Board.HandleCommandLine | firmware/src/main.c:147-171 | exactly one response is sent, and the command is executed if the line allows it |
| Firmware.Board.Poll | firmware/src/main.c:182-186 | a timeout changes nothing; a character is received |
| Firmware.Board.Receive | firmware/src/main.c:187-199 | each turn keeps the index inside the buffer and follows the framing of the characters so far |
| Firmware.Board.Run | firmware/src/main.c:182-199 | over any stream of polls the board has answered exactly the framed lines, one response each, and executed exactly what they allow |
| Firmware.LinesExactly | firmware/src/main.c:187-199 | on every stream the handled lines are the last `n % 256` characters of its pieces, empty ones left out |
| Firmware.LinesIntactExactly | firmware/src/main.c:195-199 | the handled lines are the nonempty pieces if and only if all have at most 255 characters |
| Firmware.OverlongTailIsHandled | firmware/src/main.c:195-199 | the tail of an overlong piece is handled as a line of its own |
| Firmware.ExecutedExactly | firmware/src/main.c:147-171 | a line is executed if and only if it parses to a command, none of info, that these conditions admit; the response echoes its id |
| Firmware.EveryRunIsSafe | firmware/src/main.c:173-201 | over every stream no loopback and no input readback runs on an affected board, and none of the five driving kinds without its assertion |
| Firmware.DrivesOnlyWhenAsserted | firmware/src/protocol/hazard.c:3-8 | a ws2812, dshot, pwm, uart_tx or spi_tx command is executed only from a line whose assertion is true |
| Firmware.DispatchExactly | firmware/src/protocol/dispatcher.c:9-31 | for any command each refusal is given if and only if its condition holds, with the kinds named |
| Firmware.AnswerExactly | firmware/src/main.c:147-171 | for any text the same of the answer: parse error, affected input, undeclared drive, report, or acceptance and execution |
| Firmware.PrintedAnswer | firmware/src/main.c:147-171 | from the text of any object to its answer: the refusal or acceptance follows from its id, name, mode and assertion fields alone |

## Left out

- Autocorrelation and the confidences built on it (src/slidko/measure/intervals.py): an arbitrary function of the signal.
- Floating-point rounding: quotients, averages and thresholds are exact reals.
- sigrok subprocesses, zip and configparser text: a session file is a metadata record and a list of named members; instrument and threshold notes, and files whose probes repeat a name, are not modelled.
- SrFile.Write: a negative chunk size, with which the source's loop never ends, is not modelled.
- SrFile.ChunkNameRoundTrip: digits outside ASCII, which the pattern also accepts, are not modelled.
- Smoke.RunSmoke: severities, summaries and escalation texts of findings are not modelled; the sample rate is positive.
- Classify.ClassifyChannels: the protocol parameters inside a claim and the single-channel recognizers (WS2812, PWM, DShot rate, CAN, analog video) are not modelled; the latter are an arbitrary scorer.
- InferUart.InferUart: the share of scored runs enters the confidence as an exact real.
- ClassifyMeaning.SpiClaimExactly: the three channels are equally long, as those of one capture are.
- Peripherals.Gpio.SpiTx: pin initialisation and direction are not part of the trace.
- Peripherals.Gpio.UartTx: pin initialisation is not part of the trace; the host's view assumes a line that idled high for a sample.
- Commands.ParseCommand: a null line, which the command loop never passes, is not modelled.
- Firmware.Board.HandleCommandLine: responses are records; their text, the info report's fields and the effects of executing a command are not modelled.
- Firmware.Board.Run: a finite stream of polls stands for the endless loop.
- Dshot.EncodeFrame: the PIO programs and clock dividers that put a frame on a pin are not modelled.
- The jitter, glitch and chatter injectors use random positions and are not modelled.
- The language-model narration, the address book, corpus handling and the command line interface.
