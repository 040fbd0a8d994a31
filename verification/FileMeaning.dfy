/** What a session file (src/slidko/capture/srfile.py) holds, byte by byte, and what reading any
    such file returns. */
module FileMeaning {
  import opened Numbers
  import opened Results
  import opened Captures
  import opened Decimals
  import opened SrFile

  // ---------------------------------------------------------------------------------------
  // Packing
  // ---------------------------------------------------------------------------------------

  /** Bit `c` of byte `j` is sample `j` of channel `c`, a channel of one sample being repeated; the
      bits above the channels are zero. */
  ghost predicate IsPacked(channels: seq<Channel>, bytes: seq<int>)
    requires channels != []
  {
    && |bytes| == |channels[0].signal|
    && forall j :: 0 <= j < |bytes| ==> IsRow(channels, j, bytes[j])
  }

  ghost predicate IsRow(channels: seq<Channel>, j: nat, byte: int) {
    && 0 <= byte < 256
    && forall c: nat :: c < 8 ==> (Bit(byte, c) <==> c < |channels| && LevelAt(channels[c].signal, j))
  }

  predicate LevelAt(signal: seq<bool>, j: nat) {
    if |signal| == 1 then signal[0] else j < |signal| && signal[j]
  }

  lemma {:induction false} RowIs(channels: seq<Channel>, j: nat)
    requires Fits(channels, |channels|, j + 1)
    ensures IsRow(channels, j, ValueLsb(Row(channels, j)))
  {
    hide Bit, ValueLsb;
    var row := Row(channels, j);
    ValueLsbBound(row);
    assert Pow2(8) == 256;
    forall c: nat | c < 8
      ensures Bit(ValueLsb(row), c) <==> c < |channels| && LevelAt(channels[c].signal, j)
    {
      BitOfValue(row, c);
    }
  }

  /** Column `i` cannot be filled: it is the ninth, or has another length and is not one sample. */
  ghost predicate Complains(channels: seq<Channel>, i: nat)
    requires i < |channels|
  {
    i >= 8 || (|channels[i].signal| != |channels[0].signal| && |channels[i].signal| != 1)
  }

  lemma {:induction false} FillErrorIs(channels: seq<Channel>, n: nat)
    requires n <= |channels|
    ensures FillError(channels, n).None? <==> forall i: nat :: i < n ==> !Complains(channels, i)
    ensures FillError(channels, n).Some?
        ==> exists i: nat :: i < n && IsFirst(channels, i, FillError(channels, n).value)
  {
    if n > 0 {
      FillErrorIs(channels, n - 1);
      if FillError(channels, n - 1).None? && FillError(channels, n).Some? {
        assert IsFirst(channels, n - 1, FillError(channels, n).value);
      }
    }
  }

  /** The first complaint decides the error. */
  ghost predicate IsFirst(channels: seq<Channel>, i: nat, error: SrError)
    requires i < |channels|
  {
    && Complains(channels, i)
    && (forall k: nat :: k < i ==> !Complains(channels, k))
    && error == if i >= 8 then TooManyChannels else LengthMismatch
  }

  /** Without samples there are no bytes; else every column must be fillable. */
  lemma {:induction false} PackedExactly(channels: seq<Channel>)
    ensures channels == [] || channels[0].signal == [] ==> Packed(channels) == Ok([])
    ensures channels != [] && channels[0].signal != [] ==>
      && (Packed(channels).Ok? <==> forall i: nat :: i < |channels| ==> !Complains(channels, i))
      && (Packed(channels).Ok? ==> IsPacked(channels, Packed(channels).value))
    ensures Packed(channels).Err? ==> exists i: nat :: i < |channels| && IsFirst(channels, i, Packed(channels).error)
  {
    hide IsRow, Complains, Row, ValueLsb, IsFirst;
    FillErrorIs(channels, |channels|);
    if Packed(channels).Ok? && SampleCount(channels) > 0 {
      var rows := SampleCount(channels);
      FilledFits(channels, |channels|);
      forall j | 0 <= j < rows ensures IsRow(channels, j, PackedBytes(channels, rows)[j]) {
        RowIs(channels, j);
      }
    }
  }

  // ---------------------------------------------------------------------------------------
  // Chunks
  // ---------------------------------------------------------------------------------------

  /** Numbered from `index`, each of exactly the step size, the last of at least one byte. */
  ghost predicate CutInto(bytes: seq<int>, step: nat, index: nat, members: seq<Member>) {
    && |bytes| <= |members| * step < |bytes| + step
    && forall k :: 0 <= k < |members| ==> IsPiece(bytes, step, index, k, members[k])
  }

  ghost predicate IsPiece(bytes: seq<int>, step: nat, index: nat, k: nat, m: Member) {
    && m.name == "logic-1-" + Decimal(index + k)
    && k * step < |bytes|
    && m.data == bytes[k * step..Min(k * step + step, |bytes|)]
  }

  lemma {:induction false} PieceShifts(bytes: seq<int>, step: nat, index: nat, k: nat, m: Member)
    requires step >= 1 && step < |bytes| && IsPiece(bytes[step..], step, index + 1, k, m)
    ensures IsPiece(bytes, step, index, k + 1, m)
  {
    hide Decimal;
    MulSucc(k, step);
    var rest := bytes[step..];
    assert rest[k * step..Min(k * step + step, |rest|)]
        == bytes[k * step + step..Min(k * step + step + step, |bytes|)];
  }

  lemma {:induction false} ChunksExactly(bytes: seq<int>, step: nat, index: nat)
    requires step >= 1
    ensures CutInto(bytes, step, index, Chunks(bytes, step, index))
    decreases |bytes|
  {
    hide Decimal, IsPiece;
    if bytes != [] {
      FirstPiece(bytes, step, index);
      if |bytes| > step {
        var rest := Chunks(bytes[step..], step, index + 1);
        ChunksExactly(bytes[step..], step, index + 1);
        MulSucc(|rest|, step);
        var all := Chunks(bytes, step, index);
        forall k | 0 <= k < |all| ensures IsPiece(bytes, step, index, k, all[k]) {
          if k > 0 {
            PieceShifts(bytes, step, index, k - 1, rest[k - 1]);
          }
        }
      }
    }
  }

  lemma FirstPiece(bytes: seq<int>, step: nat, index: nat)
    requires bytes != [] && step >= 1
    ensures IsPiece(bytes, step, index, 0, Member(ChunkName(index), bytes[..Min(step, |bytes|)]))
    ensures bytes[..|bytes|] == bytes
  {
    hide Decimal;
    assert 0 * step == 0;
  }

  /** The metadata names the channels in order, the rate, and one byte a sample; the members are
      the packed stream cut into pieces of the chunk size, or one piece when none is given, or one
      empty member when there is nothing to cut. */
  lemma {:induction false} WrittenExactly(capture: Capture, chunkSize: nat)
    ensures Written(capture, chunkSize).Ok? <==> Packed(capture.channels).Ok?
    ensures Written(capture, chunkSize).Ok? ==>
      var session, bytes := Written(capture, chunkSize).value, Packed(capture.channels).value;
      && |session.metadata.names| == |capture.channels|
      && (forall i :: 0 <= i < |capture.channels| ==> session.metadata.names[i] == capture.channels[i].name)
      && session.metadata.sampleRate == capture.sampleRate && session.metadata.unitSize == 1
      && (if bytes == [] then session.members == [Member("logic-1-1", [])]
          else CutInto(bytes, if chunkSize == 0 then |bytes| else chunkSize, 1, session.members))
  {
    hide Packed, CutInto, Chunks;
    if Packed(capture.channels).Ok? {
      var bytes := Packed(capture.channels).value;
      if bytes == [] {
        assert Decimal(1) == "1" && "logic-1-" + "1" == "logic-1-1";
        assert LogicMembers(bytes, 1) == [Member("logic-1-1", [])];
      } else {
        ChunksExactly(bytes, if chunkSize == 0 then |bytes| else chunkSize, 1);
      }
    }
  }

  // ---------------------------------------------------------------------------------------
  // Reading any file
  // ---------------------------------------------------------------------------------------

  /** Exactly the names `logic-1-` and digits, perhaps with a newline behind them, are chunks. */
  ghost predicate IsChunkName(name: string, digits: string) {
    digits != [] && AllDigits(digits) && (name == "logic-1-" + digits || name == "logic-1-" + digits + "\n")
  }

  lemma {:induction false} ChunkNumberExactly(name: string)
    ensures ChunkNumber(name).Some? <==> exists digits :: IsChunkName(name, digits)
    ensures forall digits :: IsChunkName(name, digits) ==> ChunkNumber(name) == Some(DecimalValue(digits))
  {
    hide DecimalValue;
    if ChunkNumber(name).Some? {
      var body := if name != [] && name[|name| - 1] == '\n' then name[..|name| - 1] else name;
      assert body == "logic-1-" + body[8..];
      assert IsChunkName(name, body[8..]);
    }
    forall digits | IsChunkName(name, digits) ensures ChunkNumber(name) == Some(DecimalValue(digits)) {
      var whole := "logic-1-" + digits;
      assert whole[|whole| - 1] == digits[|digits| - 1] && IsDigit(digits[|digits| - 1]);
      assert whole[..8] == "logic-1-" && whole[8..] == digits;
      if name == whole + "\n" {
        assert name[..|name| - 1] == whole;
      }
    }
  }

  /** From a stream of `unitSize` bytes a sample, channel `i` gets bit `i` of every sample, least
      significant bit of the first byte first; bytes that make no whole sample are ignored. */
  lemma {:induction false} UnpackedExactly(bytes: seq<int>, metadata: Metadata)
    ensures var r, names := Unpacked(bytes, metadata), metadata.names;
      && (r.Ok? <==> bytes == [] || (metadata.unitSize >= 1 && |names| <= 8 * metadata.unitSize))
      && (r.Ok? ==>
            r.value.sampleRate == metadata.sampleRate && |r.value.channels| == |names|
            && forall i :: 0 <= i < |names| ==> r.value.channels[i].name == names[i]
                                                && IsColumn(bytes, metadata.unitSize, i, r.value.channels[i].signal))
  {
    hide Bit;
    var r := Unpacked(bytes, metadata);
    if r.Ok? && bytes != [] {
      forall i | 0 <= i < |metadata.names| ensures IsColumn(bytes, metadata.unitSize, i, r.value.channels[i].signal) {
        ColumnIs(bytes, metadata.unitSize, i);
      }
    }
  }

  ghost predicate IsColumn(bytes: seq<int>, unitSize: int, i: nat, signal: seq<bool>) {
    if bytes == [] then signal == []
    else
      && unitSize >= 1 && |signal| == |bytes| / unitSize
      && forall row :: 0 <= row < |signal| ==> HoldsBit(bytes, row * unitSize + i / 8, i % 8, signal[row])
  }

  ghost predicate HoldsBit(bytes: seq<int>, at: int, bit: nat, level: bool) {
    0 <= at < |bytes| && level == Bit(bytes[at], bit)
  }

  lemma {:induction false} ColumnIs(bytes: seq<int>, unitSize: nat, i: nat)
    requires bytes != [] && unitSize >= 1 && i < 8 * unitSize
    ensures IsColumn(bytes, unitSize, i, Column(bytes, unitSize, i))
  {
    hide Bit;
    forall row | 0 <= row < |bytes| / unitSize
      ensures HoldsBit(bytes, row * unitSize + i / 8, i % 8, Column(bytes, unitSize, i)[row])
    {
      RowInRange(|bytes|, unitSize, row, i);
    }
  }

  /** The names that carry this number, in their order. */
  function WithNumber(names: seq<string>, n: nat): seq<string> {
    if names == [] then []
    else
      var last := names[|names| - 1];
      WithNumber(names[..|names| - 1], n) + (if Number(last) == n then [last] else [])
  }

  lemma {:induction false} WithNumberSnoc(names: seq<string>, name: string, n: nat)
    ensures WithNumber(names + [name], n) == WithNumber(names, n) + (if Number(name) == n then [name] else [])
  {
    hide Number;
    assert (names + [name])[..|names|] == names;
  }

  ghost predicate NumbersRise(names: seq<string>) {
    forall i, j :: 0 <= i < j < |names| ==> Number(names[i]) <= Number(names[j])
  }

  lemma {:induction false} InsertKeepsNumbers(names: seq<string>, name: string, n: nat)
    requires NumbersRise(names)
    ensures WithNumber(InsertName(names, name), n) == WithNumber(names + [name], n)
  {
    hide Number;
    if names == [] || Number(names[|names| - 1]) <= Number(name) {
    } else {
      var front, last := names[..|names| - 1], names[|names| - 1];
      InsertKeepsNumbers(front, name, n);
      WithNumberSnoc(InsertName(front, name), last, n);
      WithNumberSnoc(front, name, n);
      WithNumberSnoc(names, name, n);
      assert names == front + [last];
      WithNumberSnoc(front, last, n);
      Regroup(WithNumber(front, n), if Number(name) == n then [name] else [], if Number(last) == n then [last] else []);
    }
  }

  lemma Regroup(a: seq<string>, b: seq<string>, c: seq<string>)
    requires b == [] || c == []
    ensures a + b + c == a + c + b
  {
  }

  lemma {:induction false} InsertKeepsOrder(names: seq<string>, name: string)
    requires NumbersRise(names)
    ensures NumbersRise(InsertName(names, name))
    ensures forall s :: s in InsertName(names, name) <==> s in names || s == name
  {
    hide Number;
    if names != [] && Number(names[|names| - 1]) > Number(name) {
      var front, last := names[..|names| - 1], names[|names| - 1];
      assert names == front + [last];
      InsertKeepsOrder(front, name);
      var inserted := InsertName(front, name);
      forall i | 0 <= i < |inserted| ensures Number(inserted[i]) <= Number(last) {
        assert inserted[i] in inserted;
        if inserted[i] in front {
          var k :| 0 <= k < |front| && front[k] == inserted[i];
          assert names[k] == front[k];
        }
      }
    }
  }

  /** Chunks are joined by rising number; names of one number keep the archive's order. */
  lemma {:induction false} SortExactly(names: seq<string>, n: nat)
    ensures NumbersRise(SortedNames(names))
    ensures WithNumber(SortedNames(names), n) == WithNumber(names, n)
  {
    hide Number;
    if names != [] {
      var front, last := names[..|names| - 1], names[|names| - 1];
      SortExactly(front, n);
      InsertKeepsOrder(SortedNames(front), last);
      InsertKeepsNumbers(SortedNames(front), last, n);
      WithNumberSnoc(SortedNames(front), last, n);
    }
  }

  /** Of members with one name the last is read. */
  lemma {:induction false} LastIsRead(members: seq<Member>, k: nat)
    requires k < |members| && forall i :: k < i < |members| ==> members[i].name != members[k].name
    ensures DataOf(members, members[k].name) == members[k].data
  {
    if k < |members| - 1 {
      LastIsRead(members[..|members| - 1], k);
    }
  }
}
