/** Writing a session file and reading it back returns every channel bit for bit, however the
    members of the archive are ordered and whatever else lies between them. */
module SrRoundTrip {
  import opened Numbers
  import opened Results
  import opened Captures
  import opened SrFile

  // ---------------------------------------------------------------------------------------
  // Chunks
  // ---------------------------------------------------------------------------------------

  /** Member `i` is chunk `index + i`. */
  ghost predicate NumberedFrom(members: seq<Member>, index: nat) {
    forall i :: 0 <= i < |members| ==> members[i].name == ChunkName(index + i)
  }

  function DataJoined(members: seq<Member>): seq<int> {
    if members == [] then [] else members[0].data + DataJoined(members[1..])
  }

  /** Cutting numbers the pieces in order and loses nothing. */
  lemma {:induction false} ChunksExact(bytes: seq<int>, step: nat, index: nat)
    requires step >= 1
    ensures NumberedFrom(Chunks(bytes, step, index), index)
    ensures DataJoined(Chunks(bytes, step, index)) == bytes
    decreases |bytes|
  {
    hide ChunkName;
    if 0 < |bytes| <= step {
      assert DataJoined([]) == [];
      assert bytes + [] == bytes;
    } else if |bytes| > step {
      var first, rest := Member(ChunkName(index), bytes[..step]), Chunks(bytes[step..], step, index + 1);
      ChunksExact(bytes[step..], step, index + 1);
      assert ([first] + rest)[1..] == rest;
      assert bytes == bytes[..step] + bytes[step..];
    }
  }

  lemma {:induction false} LogicMembersExact(bytes: seq<int>, step: nat)
    requires step >= 1
    ensures NumberedFrom(LogicMembers(bytes, step), 1)
    ensures DataJoined(LogicMembers(bytes, step)) == bytes
  {
    hide ChunkName, Chunks;
    if bytes == [] {
      assert DataJoined([]) == [];
    } else {
      ChunksExact(bytes, step, 1);
    }
  }

  // ---------------------------------------------------------------------------------------
  // Selecting the chunks of a shuffled archive
  // ---------------------------------------------------------------------------------------

  lemma {:induction false} ChunkNamesConcat(a: seq<Member>, b: seq<Member>)
    ensures ChunkNames(a + b) == ChunkNames(a) + ChunkNames(b)
  {
    if b == [] {
      assert a + b == a;
    } else {
      var n := |b| - 1;
      assert (a + b)[..|a + b| - 1] == a + b[..n];
      ChunkNamesConcat(a, b[..n]);
    }
  }

  /** Which names are selected does not depend on the order of the members. */
  lemma {:induction false} ChunkNamesShuffled(a: seq<Member>, b: seq<Member>)
    requires multiset(a) == multiset(b)
    ensures multiset(ChunkNames(a)) == multiset(ChunkNames(b))
  {
    hide ChunkNames, ChunkNumber;
    if a == [] {
      assert |multiset(b)| == 0;
    } else {
      var n := |a| - 1;
      var m := a[n];
      assert a == a[..n] + [m];
      var j := Position(b, m);
      assert b == b[..j] + [m] + b[j + 1..];
      CancelOne(a[..n], b[..j], b[j + 1..], m);
      ChunkNamesShuffled(a[..n], b[..j] + b[j + 1..]);
      ChunkNamesConcat(a[..n], [m]);
      ChunkNamesConcat(b[..j], b[j + 1..]);
      ChunkNamesConcat(b[..j] + [m], b[j + 1..]);
      ChunkNamesConcat(b[..j], [m]);
    }
  }

  lemma CancelOne<T>(a: seq<T>, front: seq<T>, back: seq<T>, x: T)
    requires multiset(a + [x]) == multiset(front + [x] + back)
    ensures multiset(a) == multiset(front + back)
  {
    assert multiset(a) == multiset(a + [x]) - multiset{x};
    assert multiset(front + back) == multiset(front + [x] + back) - multiset{x};
  }

  lemma {:induction false} Position(b: seq<Member>, m: Member) returns (j: nat)
    requires m in multiset(b)
    ensures j < |b| && b[j] == m
  {
    j :| 0 <= j < |b| && b[j] == m;
  }

  ghost predicate NoChunks(members: seq<Member>) {
    forall i :: 0 <= i < |members| ==> ChunkNumber(members[i].name).None?
  }

  lemma {:induction false} OthersIgnored(others: seq<Member>)
    requires NoChunks(others)
    ensures ChunkNames(others) == []
  {
    if others != [] {
      OthersIgnored(others[..|others| - 1]);
    }
  }

  function NamesFrom(index: nat, count: nat): seq<string> {
    seq(count, i requires 0 <= i < count => ChunkName(index + i))
  }

  lemma {:induction false} ChunkNamesNumbered(members: seq<Member>, index: nat)
    requires NumberedFrom(members, index)
    ensures ChunkNames(members) == NamesFrom(index, |members|)
  {
    hide ChunkName, ChunkNumber;
    if members != [] {
      var n := |members| - 1;
      ChunkNamesNumbered(members[..n], index);
      ChunkNameRoundTrip(index + n);
      assert NamesFrom(index, n + 1) == NamesFrom(index, n) + [ChunkName(index + n)];
    }
  }

  // ---------------------------------------------------------------------------------------
  // Sorting
  // ---------------------------------------------------------------------------------------

  ghost predicate InOrder(names: seq<string>) {
    forall i, j :: 0 <= i < j < |names| ==> Number(names[i]) <= Number(names[j])
  }

  lemma {:induction false} InsertInOrder(names: seq<string>, name: string)
    requires InOrder(names)
    ensures InOrder(InsertName(names, name))
    ensures multiset(InsertName(names, name)) == multiset(names) + multiset{name}
  {
    hide Number;
    if names != [] && Number(names[|names| - 1]) > Number(name) {
      var n := |names| - 1;
      var last := names[n];
      assert names == names[..n] + [last];
      InsertInOrder(names[..n], name);
      AllBelow(InsertName(names[..n], name), names[..n], name, last);
    }
  }

  lemma {:induction false} AllBelow(inserted: seq<string>, names: seq<string>, name: string, last: string)
    requires multiset(inserted) == multiset(names) + multiset{name}
    requires Number(name) <= Number(last)
    requires forall i :: 0 <= i < |names| ==> Number(names[i]) <= Number(last)
    requires InOrder(inserted)
    ensures InOrder(inserted + [last])
  {
    hide Number;
    forall i | 0 <= i < |inserted| ensures Number(inserted[i]) <= Number(last) {
      assert inserted[i] in multiset(inserted);
      assert inserted[i] in multiset(names) || inserted[i] == name;
    }
  }

  lemma {:induction false} SortedInOrder(names: seq<string>)
    ensures InOrder(SortedNames(names))
    ensures multiset(SortedNames(names)) == multiset(names)
  {
    hide Number;
    if names != [] {
      var n := |names| - 1;
      SortedInOrder(names[..n]);
      InsertInOrder(SortedNames(names[..n]), names[n]);
      assert names == names[..n] + [names[n]];
    }
  }

  /** The only list in order with the names of chunks `index` to `index + count` is that one. */
  lemma {:induction false} OrderedIsUnique(names: seq<string>, index: nat, count: nat)
    requires InOrder(names) && multiset(names) == multiset(NamesFrom(index, count))
    ensures names == NamesFrom(index, count)
  {
    hide Number, ChunkName;
    assert |names| == |multiset(names)| == |NamesFrom(index, count)|;
    if count > 0 {
      var n := count - 1;
      var last := ChunkName(index + n);
      assert NamesFrom(index, count) == NamesFrom(index, n) + [last];
      LastIsLargest(names, index, count);
      assert names == names[..n] + [names[n]];
      assert NamesFrom(index, n) + [last] + [] == NamesFrom(index, n) + [last];
      assert NamesFrom(index, n) + [] == NamesFrom(index, n);
      CancelOne(names[..n], NamesFrom(index, n), [], last);
      OrderedIsUnique(names[..n], index, n);
    }
  }

  lemma {:induction false} NumberOfChunk(index: nat)
    ensures Number(ChunkName(index)) == index
  {
    ChunkNameRoundTrip(index);
  }

  lemma {:induction false} LastIsLargest(names: seq<string>, index: nat, count: nat)
    requires count > 0 && |names| == count && InOrder(names)
    requires multiset(names) == multiset(NamesFrom(index, count))
    ensures names[count - 1] == ChunkName(index + count - 1)
  {
    hide Number, ChunkName;
    var expected, n := NamesFrom(index, count), count - 1;
    assert names[n] in multiset(names);
    var j :| 0 <= j < count && expected[j] == names[n];
    assert expected[n] in multiset(expected);
    var k :| 0 <= k < count && names[k] == expected[n];
    NumberOfChunk(index + j);
    NumberOfChunk(index + n);
    assert Number(names[k]) <= Number(names[n]);
  }

  // ---------------------------------------------------------------------------------------
  // Reading the chunks in order
  // ---------------------------------------------------------------------------------------

  /** A name borne by one member's data only is read as that data. */
  lemma {:induction false} DataOfMember(archive: seq<Member>, m: Member)
    requires m in archive
    requires forall i :: 0 <= i < |archive| && archive[i].name == m.name ==> archive[i].data == m.data
    ensures DataOf(archive, m.name) == m.data
  {
    var n := |archive| - 1;
    if archive[n].name != m.name {
      assert archive == archive[..n] + [archive[n]];
      DataOfMember(archive[..n], m);
    }
  }

  /** `archive` holds the numbered members among others that are no chunks. */
  ghost predicate Holds(archive: seq<Member>, members: seq<Member>, others: seq<Member>) {
    && NumberedFrom(members, 1)
    && NoChunks(others)
    && multiset(archive) == multiset(members + others)
  }

  lemma {:induction false} DataOfChunk(archive: seq<Member>, members: seq<Member>, others: seq<Member>, k: nat)
    requires Holds(archive, members, others) && k < |members|
    ensures DataOf(archive, ChunkName(1 + k)) == members[k].data
  {
    hide ChunkName, ChunkNumber, DataOf;
    var m := members[k];
    assert (members + others)[k] == m;
    assert m in multiset(members + others);
    forall i | 0 <= i < |archive| && archive[i].name == m.name ensures archive[i].data == m.data {
      assert archive[i] in multiset(archive);
      SameChunk(members, others, k, archive[i]);
    }
    DataOfMember(archive, m);
  }

  lemma {:induction false} SameChunk(members: seq<Member>, others: seq<Member>, k: nat, m: Member)
    requires NumberedFrom(members, 1) && NoChunks(others) && k < |members|
    requires m in multiset(members + others) && m.name == members[k].name
    ensures m == members[k]
  {
    hide ChunkName, ChunkNumber;
    var j :| 0 <= j < |members + others| && (members + others)[j] == m;
    assert m == if j < |members| then members[j] else others[j - |members|];
    ChunkNameRoundTrip(1 + k);
    ChunkNameRoundTrip(1 + j);
  }

  lemma {:induction false} JoinedFrom(archive: seq<Member>, members: seq<Member>, n: nat)
    requires n <= |members|
    requires forall k :: 0 <= k < n ==> DataOf(archive, ChunkName(1 + k)) == members[k].data
    ensures Joined(archive, NamesFrom(1, n)) == DataJoined(members[..n])
  {
    hide ChunkName, DataOf;
    if n > 0 {
      JoinedFrom(archive, members, n - 1);
      assert NamesFrom(1, n)[..n - 1] == NamesFrom(1, n - 1);
      assert members[..n] == members[..n - 1] + [members[n - 1]];
      DataJoinedSnoc(members[..n - 1], members[n - 1]);
    }
  }

  lemma {:induction false} DataJoinedSnoc(members: seq<Member>, m: Member)
    ensures DataJoined(members + [m]) == DataJoined(members) + m.data
  {
    if members == [] {
      assert [m][1..] == [];
      assert DataJoined([]) == [];
      assert [] + [m] == [m];
    } else {
      assert (members + [m])[1..] == members[1..] + [m];
      DataJoinedSnoc(members[1..], m);
    }
  }

  /** Selecting, sorting and joining undoes numbering, shuffling and interleaving. */
  lemma {:induction false} Reassembles(archive: seq<Member>, members: seq<Member>, others: seq<Member>)
    requires Holds(archive, members, others)
    ensures Joined(archive, SortedNames(ChunkNames(archive))) == DataJoined(members)
  {
    hide ChunkName, ChunkNumber, DataOf, ChunkNames, SortedNames, Joined, DataJoined;
    ChunkNamesShuffled(archive, members + others);
    ChunkNamesConcat(members, others);
    OthersIgnored(others);
    assert ChunkNames(members) + [] == ChunkNames(members);
    ChunkNamesNumbered(members, 1);
    SortedInOrder(ChunkNames(archive));
    OrderedIsUnique(SortedNames(ChunkNames(archive)), 1, |members|);
    forall k | 0 <= k < |members| ensures DataOf(archive, ChunkName(1 + k)) == members[k].data {
      DataOfChunk(archive, members, others, k);
    }
    JoinedFrom(archive, members, |members|);
    assert members[..|members|] == members;
  }

  // ---------------------------------------------------------------------------------------
  // Unpacking
  // ---------------------------------------------------------------------------------------

  ghost predicate EqualLengths(channels: seq<Channel>, n: nat) {
    forall i :: 0 <= i < |channels| ==> |channels[i].signal| == n
  }

  lemma {:induction false} EqualLengthsFill(channels: seq<Channel>, n: nat)
    requires n <= |channels| && EqualLengths(channels, SampleCount(channels))
    ensures FillError(channels, n) == if n <= MAX_CHANNELS then None else Some(TooManyChannels)
  {
    if n > 0 {
      EqualLengthsFill(channels, n - 1);
    }
  }

  lemma {:induction false} ColumnIsSignal(channels: seq<Channel>, rows: nat, col: nat)
    requires Fits(channels, |channels|, rows) && EqualLengths(channels, rows)
    requires col < |channels| <= MAX_CHANNELS && rows > 0
    ensures Column(PackedBytes(channels, rows), UNIT_SIZE, col) == channels[col].signal
  {
    hide ValueLsb, Bit;
    var bytes := PackedBytes(channels, rows);
    assert |bytes| / UNIT_SIZE == rows;
    forall row | 0 <= row < rows ensures Column(bytes, UNIT_SIZE, col)[row] == channels[col].signal[row] {
      RowInRange(|bytes|, UNIT_SIZE, row, col);
      assert row * UNIT_SIZE + col / 8 == row && col % 8 == col;
      BitOfValue(Row(channels, row), col);
    }
  }

  /** Unpacking the packed stream gives the capture back. */
  lemma {:induction false} UnpackPacked(capture: Capture)
    requires EqualLengths(capture.channels, SampleCount(capture.channels))
    requires Packed(capture.channels).Ok?
    ensures Unpacked(Packed(capture.channels).value,
                     Metadata(ChannelNames(capture.channels), capture.sampleRate, UNIT_SIZE))
         == Ok(capture)
  {
    hide Column, PackedBytes, FillError;
    var channels, rows := capture.channels, SampleCount(capture.channels);
    var metadata := Metadata(ChannelNames(channels), capture.sampleRate, UNIT_SIZE);
    var names := metadata.names;
    if rows == 0 {
      var empty := seq(|names|, i requires 0 <= i < |names| => Channel(names[i], []));
      assert empty == channels;
    } else {
      FilledFits(channels, |channels|);
      var bytes := PackedBytes(channels, rows);
      assert |bytes| == rows by { PackedLength(channels, rows); }
      var read := Unpacked(bytes, metadata).value.channels;
      forall i | 0 <= i < |channels| ensures read[i] == channels[i] {
        ColumnIsSignal(channels, rows, i);
      }
      assert read == channels;
    }
  }

  lemma {:induction false} PackedLength(channels: seq<Channel>, rows: nat)
    requires Fits(channels, |channels|, rows)
    ensures |PackedBytes(channels, rows)| == rows
  {
  }

  // ---------------------------------------------------------------------------------------
  // Round trip
  // ---------------------------------------------------------------------------------------

  /** Equally long channels can be written exactly when there are at most eight, or no samples. */
  lemma {:induction false} WritableExactly(capture: Capture, chunkSize: nat)
    requires EqualLengths(capture.channels, SampleCount(capture.channels))
    ensures Written(capture, chunkSize).Ok?
       <==> |capture.channels| <= MAX_CHANNELS || SampleCount(capture.channels) == 0
  {
    hide PackedBytes, LogicMembers;
    EqualLengthsFill(capture.channels, |capture.channels|);
  }

  /** Whatever the chunk size, the order of the members and the foreign members between them,
      reading a written session returns every channel bit for bit. */
  lemma {:induction false} SessionRoundTrip(capture: Capture, chunkSize: nat, archive: seq<Member>, others: seq<Member>)
    requires EqualLengths(capture.channels, SampleCount(capture.channels))
    requires Written(capture, chunkSize).Ok? && NoChunks(others)
    requires multiset(archive) == multiset(Written(capture, chunkSize).value.members + others)
    ensures Read(Session(Written(capture, chunkSize).value.metadata, archive)) == Ok(capture)
  {
    hide Joined, SortedNames, ChunkNames, LogicMembers, DataJoined, Unpacked, NoChunks, NumberedFrom, Packed;
    var bytes := Packed(capture.channels).value;
    var members := Written(capture, chunkSize).value.members;
    LogicMembersExact(bytes, StepSize(chunkSize, |bytes|));
    Reassembles(archive, members, others);
    UnpackPacked(capture);
  }
}
