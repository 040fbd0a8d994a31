/** Sigrok session files (src/slidko/capture/srfile.py): packing channels into bytes, splitting
    the bytes into numbered chunks, and putting them together again. The archive is a list of
    named members, its metadata a record. */
module SrFile {
  import opened Numbers
  import opened Results
  import opened Captures
  import opened Decimals

  const UNIT_SIZE := 1
  const MAX_CHANNELS := 8
  const CHUNK_PREFIX := "logic-1-"

  datatype Metadata = Metadata(names: seq<string>, sampleRate: int, unitSize: int)

  datatype Member = Member(name: string, data: seq<int>)

  datatype Session = Session(metadata: Metadata, members: seq<Member>)

  datatype SrError = TooManyChannels | LengthMismatch | BadUnitSize | NoSuchBit

  // ---------------------------------------------------------------------------------------
  // Member names
  // ---------------------------------------------------------------------------------------

  /** The number of a `logic-1-<n>` member; the pattern's end also matches before a newline. */
  function ChunkNumber(name: string): Option<nat> {
    var body := if name != [] && name[|name| - 1] == '\n' then name[..|name| - 1] else name;
    var p := |CHUNK_PREFIX|;
    if |body| > p && body[..p] == CHUNK_PREFIX && AllDigits(body[p..]) then Some(DecimalValue(body[p..])) else None
  }

  function ChunkName(index: nat): string {
    CHUNK_PREFIX + Decimal(index)
  }

  lemma {:induction false} ChunkNameRoundTrip(index: nat)
    ensures ChunkNumber(ChunkName(index)) == Some(index)
  {
    var name, p := ChunkName(index), |CHUNK_PREFIX|;
    DecimalRoundTrip(index);
    assert name[..p] == CHUNK_PREFIX && name[p..] == Decimal(index);
    LastIsDigit(name, Decimal(index));
  }

  lemma LastIsDigit(name: string, digits: string)
    requires digits != [] && AllDigits(digits) && name == CHUNK_PREFIX + digits
    ensures name[|name| - 1] != '\n'
  {
    assert name[|name| - 1] == digits[|digits| - 1];
  }

  // ---------------------------------------------------------------------------------------
  // Packing
  // ---------------------------------------------------------------------------------------

  /** One row of the bit matrix: the channels' samples, low columns first, zeros behind them.
      A channel of one sample is repeated on every row. */
  function Row(channels: seq<Channel>, row: nat): seq<bool>
    requires Fits(channels, |channels|, row + 1)
  {
    seq(MAX_CHANNELS, col requires 0 <= col < MAX_CHANNELS =>
      col < |channels| && (if |channels[col].signal| == 1 then channels[col].signal[0] else channels[col].signal[row]))
  }

  /** The first `n` channels reach at least `rows` samples, or are repeated. */
  predicate Fits(channels: seq<Channel>, n: nat, rows: nat)
    requires n <= |channels|
  {
    forall i :: 0 <= i < n ==> |channels[i].signal| == 1 || |channels[i].signal| >= rows
  }

  /** The first `rows` packed samples, one byte each. */
  function PackedBytes(channels: seq<Channel>, rows: nat): seq<int>
    requires Fits(channels, |channels|, rows)
  {
    seq(rows, row requires 0 <= row < rows => ValueLsb(Row(channels, row)))
  }

  function SampleCount(channels: seq<Channel>): nat {
    if channels == [] then 0 else |channels[0].signal|
  }

  /** The first complaint while filling columns `0` to `n`. */
  function FillError(channels: seq<Channel>, n: nat): Option<SrError>
    requires n <= |channels|
  {
    if n == 0 then None
    else
      match FillError(channels, n - 1)
      case Some(e) => Some(e)
      case None =>
        if n - 1 >= MAX_CHANNELS then Some(TooManyChannels)
        else if |channels[n - 1].signal| != SampleCount(channels) && |channels[n - 1].signal| != 1
        then Some(LengthMismatch)
        else None
  }

  lemma {:induction false} FilledFits(channels: seq<Channel>, n: nat)
    requires n <= |channels| && FillError(channels, n).None?
    ensures Fits(channels, n, SampleCount(channels)) && n <= MAX_CHANNELS
  {
    if n > 0 {
      FilledFits(channels, n - 1);
    }
  }

  /** The packed sample stream of a capture. */
  function Packed(channels: seq<Channel>): Result<seq<int>, SrError> {
    if SampleCount(channels) == 0 then Ok([])
    else
      match FillError(channels, |channels|)
      case Some(e) => Err(e)
      case None =>
        FilledFits(channels, |channels|);
        Ok(PackedBytes(channels, SampleCount(channels)))
  }

  method Pack(channels: seq<Channel>) returns (r: Result<seq<int>, SrError>)
    ensures r == Packed(channels)
  {
    if SampleCount(channels) == 0 {
      return Ok([]);
    }
    for col := 0 to |channels|
      invariant FillError(channels, col).None?
    {
      if col >= MAX_CHANNELS {
        FillErrorStays(channels, col + 1);
        return Err(TooManyChannels);
      }
      if |channels[col].signal| != SampleCount(channels) && |channels[col].signal| != 1 {
        FillErrorStays(channels, col + 1);
        return Err(LengthMismatch);
      }
    }
    FilledFits(channels, |channels|);
    return Ok(PackedBytes(channels, SampleCount(channels)));
  }

  lemma {:induction false} FillErrorStays(channels: seq<Channel>, n: nat)
    requires n <= |channels| && FillError(channels, n).Some?
    ensures FillError(channels, |channels|) == FillError(channels, n)
    decreases |channels| - n
  {
    if n < |channels| {
      FillErrorStays(channels, n + 1);
    }
  }

  // ---------------------------------------------------------------------------------------
  // Chunks
  // ---------------------------------------------------------------------------------------

  /** The stream cut into pieces of `step` bytes, numbered from `index`. */
  function Chunks(bytes: seq<int>, step: nat, index: nat): seq<Member>
    requires step >= 1
    decreases |bytes|
  {
    if bytes == [] then []
    else if |bytes| <= step then [Member(ChunkName(index), bytes)]
    else [Member(ChunkName(index), bytes[..step])] + Chunks(bytes[step..], step, index + 1)
  }

  /** An empty stream still has one, empty, chunk. */
  function LogicMembers(bytes: seq<int>, step: nat): seq<Member>
    requires step >= 1
  {
    if bytes == [] then [Member(ChunkName(1), [])] else Chunks(bytes, step, 1)
  }

  function StepSize(chunkSize: nat, length: nat): (step: nat)
    ensures step >= 1
  {
    if chunkSize != 0 then chunkSize else Max(length, 1)
  }

  /** What `write_sr` promises; `chunkSize` is 0 when none is given. */
  function Written(capture: Capture, chunkSize: nat): Result<Session, SrError> {
    match Packed(capture.channels)
    case Err(e) => Err(e)
    case Ok(bytes) =>
      Ok(Session(Metadata(ChannelNames(capture.channels), capture.sampleRate, UNIT_SIZE),
                 LogicMembers(bytes, StepSize(chunkSize, |bytes|))))
  }

  function ChannelNames(channels: seq<Channel>): seq<string> {
    seq(|channels|, i requires 0 <= i < |channels| => channels[i].name)
  }

  method Write(capture: Capture, chunkSize: nat) returns (r: Result<Session, SrError>)
    ensures r == Written(capture, chunkSize)
  {
    var packed := Pack(capture.channels);
    if packed.Err? {
      return Err(packed.error);
    }
    var members := SplitBytes(packed.value, StepSize(chunkSize, |packed.value|));
    return Ok(Session(Metadata(ChannelNames(capture.channels), capture.sampleRate, UNIT_SIZE), members));
  }

  /** The chunk loop of `write_sr`. */
  method SplitBytes(bytes: seq<int>, step: nat) returns (members: seq<Member>)
    requires step >= 1
    ensures members == LogicMembers(bytes, step)
  {
    members := [];
    var chunkIndex, offset := 1, 0;
    assert bytes[0..] == bytes;
    while offset < |bytes|
      invariant members + Chunks(bytes[Min(offset, |bytes|)..], step, chunkIndex) == Chunks(bytes, step, 1)
      decreases |bytes| - offset
    {
      var end := Min(offset + step, |bytes|);
      ChunkStep(bytes, offset, step, chunkIndex);
      ghost var rest := Chunks(bytes[end..], step, chunkIndex + 1);
      assert members + ([Member(ChunkName(chunkIndex), bytes[offset..end])] + rest)
          == members + [Member(ChunkName(chunkIndex), bytes[offset..end])] + rest;
      members := members + [Member(ChunkName(chunkIndex), bytes[offset..end])];
      offset := offset + step;
      chunkIndex := chunkIndex + 1;
    }
    assert members + [] == members;
    if bytes == [] {
      members := members + [Member(ChunkName(1), [])];
    }
  }

  lemma {:induction false} ChunkStep(bytes: seq<int>, offset: nat, step: nat, index: nat)
    requires step >= 1 && offset < |bytes|
    ensures var end := Min(offset + step, |bytes|);
      Chunks(bytes[offset..], step, index)
      == [Member(ChunkName(index), bytes[offset..end])] + Chunks(bytes[end..], step, index + 1)
  {
    var here := bytes[offset..];
    if |here| <= step {
      assert bytes[offset..|bytes|] == here;
      assert [Member(ChunkName(index), here)] + [] == [Member(ChunkName(index), here)];
    } else {
      assert here[..step] == bytes[offset..offset + step] && here[step..] == bytes[offset + step..];
    }
  }

  // ---------------------------------------------------------------------------------------
  // Reading
  // ---------------------------------------------------------------------------------------

  /** The names of the chunk members, in archive order. */
  function ChunkNames(members: seq<Member>): seq<string> {
    if members == [] then []
    else
      var last := members[|members| - 1];
      ChunkNames(members[..|members| - 1]) + (if ChunkNumber(last.name).Some? then [last.name] else [])
  }

  function Number(name: string): nat {
    match ChunkNumber(name)
    case Some(n) => n
    case None => 0
  }

  /** Insertion behind all names of the same or a lower number. */
  function InsertName(names: seq<string>, name: string): seq<string> {
    if names == [] || Number(names[|names| - 1]) <= Number(name) then names + [name]
    else InsertName(names[..|names| - 1], name) + [names[|names| - 1]]
  }

  /** `sorted(names, key=number)`. */
  function SortedNames(names: seq<string>): seq<string> {
    if names == [] then []
    else InsertName(SortedNames(names[..|names| - 1]), names[|names| - 1])
  }

  /** `zf.read(name)`: the last member of that name. */
  function DataOf(members: seq<Member>, name: string): seq<int> {
    if members == [] then []
    else if members[|members| - 1].name == name then members[|members| - 1].data
    else DataOf(members[..|members| - 1], name)
  }

  function Joined(members: seq<Member>, names: seq<string>): seq<int> {
    if names == [] then []
    else Joined(members, names[..|names| - 1]) + DataOf(members, names[|names| - 1])
  }

  /** Sample `row` of column `col` in a stream of `unitSize` bytes a sample. */
  predicate BitAt(bytes: seq<int>, unitSize: nat, row: nat, col: nat)
    requires row * unitSize + col / 8 < |bytes|
  {
    Bit(bytes[row * unitSize + col / 8], col % 8)
  }

  lemma {:induction false} RowInRange(length: nat, unitSize: nat, row: nat, col: nat)
    requires unitSize >= 1 && row < length / unitSize && col < 8 * unitSize
    ensures row * unitSize + col / 8 < length
  {
    MulSucc(row, unitSize);
    MulMonotone(row + 1, length / unitSize, unitSize);
    assert length / unitSize * unitSize <= length;
  }

  function Column(bytes: seq<int>, unitSize: nat, col: nat): seq<bool>
    requires unitSize >= 1 && col < 8 * unitSize
  {
    seq(|bytes| / unitSize, row requires 0 <= row < |bytes| / unitSize =>
      (RowInRange(|bytes|, unitSize, row, col);
      BitAt(bytes, unitSize, row, col)))
  }

  function Unpacked(bytes: seq<int>, metadata: Metadata): Result<Capture, SrError> {
    var names := metadata.names;
    if bytes == [] then
      Ok(Capture(seq(|names|, i requires 0 <= i < |names| => Channel(names[i], [])), metadata.sampleRate))
    else if metadata.unitSize < 1 then Err(BadUnitSize)
    else if |names| > 8 * metadata.unitSize then Err(NoSuchBit)
    else
      Ok(Capture(seq(|names|, i requires 0 <= i < |names| => Channel(names[i], Column(bytes, metadata.unitSize, i))),
                 metadata.sampleRate))
  }

  /** `read_sr`. */
  function Read(session: Session): Result<Capture, SrError> {
    Unpacked(Joined(session.members, SortedNames(ChunkNames(session.members))), session.metadata)
  }
}
