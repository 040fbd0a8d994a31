/** Logic signals as sequences of samples: run-length segments (tests/synth.py) and edges
    (src/slidko/measure/edges.py). */
module Signals {
  import opened Numbers

  // ---------------------------------------------------------------------------------------
  // Run-length segments
  // ---------------------------------------------------------------------------------------

  datatype Segment = Segment(level: bool, count: int)

  function Fill(level: bool, n: nat): (s: seq<bool>)
    ensures |s| == n
    ensures forall i :: 0 <= i < n ==> s[i] == level
  {
    seq(n, _ => level)
  }

  function ExpandOne(s: Segment): seq<bool> {
    if s.count > 0 then Fill(s.level, s.count) else []
  }

  /** `expand_segments`: segments without samples vanish. */
  function Expand(segments: seq<Segment>): seq<bool> {
    if segments == [] then []
    else ExpandOne(segments[0]) + Expand(segments[1..])
  }

  lemma {:induction false} ExpandConcat(a: seq<Segment>, b: seq<Segment>)
    ensures Expand(a + b) == Expand(a) + Expand(b)
  {
    if a == [] {
      assert a + b == b;
    } else {
      assert (a + b)[0] == a[0] && (a + b)[1..] == a[1..] + b;
      ExpandConcat(a[1..], b);
    }
  }

  lemma {:induction false} ExpandSnoc(a: seq<Segment>, s: Segment)
    ensures Expand(a + [s]) == Expand(a) + ExpandOne(s)
  {
    ExpandConcat(a, [s]);
    assert Expand([s]) == ExpandOne(s) + Expand([]);
  }

  // ---------------------------------------------------------------------------------------
  // Signals in which every level lasts a whole number of equal cells
  // ---------------------------------------------------------------------------------------

  /** Each level of `levels` held for `cell` samples. */
  function Stretch(levels: seq<bool>, cell: nat): seq<bool> {
    if levels == [] then []
    else
      var n := |levels| - 1;
      Stretch(levels[..n], cell) + Fill(levels[n], cell)
  }

  /** One segment of `cell` samples per level. */
  function Uniform(levels: seq<bool>, cell: nat): seq<Segment> {
    seq(|levels|, i requires 0 <= i < |levels| => Segment(levels[i], cell))
  }

  lemma {:induction false} ExpandUniform(levels: seq<bool>, cell: nat)
    ensures Expand(Uniform(levels, cell)) == Stretch(levels, cell)
  {
    if levels != [] {
      var n := |levels| - 1;
      ExpandUniform(levels[..n], cell);
      assert Uniform(levels, cell) == Uniform(levels[..n], cell) + [Segment(levels[n], cell)];
      ExpandSnoc(Uniform(levels[..n], cell), Segment(levels[n], cell));
    }
  }

  lemma {:induction false} StretchConcat(a: seq<bool>, b: seq<bool>, cell: nat)
    ensures Stretch(a + b, cell) == Stretch(a, cell) + Stretch(b, cell)
  {
    if b == [] {
      assert a + b == a;
    } else {
      var n := |b| - 1;
      assert (a + b)[..|a + b| - 1] == a + b[..n];
      StretchConcat(a, b[..n], cell);
    }
  }

  lemma {:induction false} StretchLength(levels: seq<bool>, cell: nat)
    ensures |Stretch(levels, cell)| == |levels| * cell
  {
    if levels != [] {
      var n := |levels| - 1;
      StretchLength(levels[..n], cell);
      assert |levels| * cell == n * cell + cell;
    }
  }

  /** The sample at offset `o` of cell `c` has the level of that cell. */
  lemma {:induction false} StretchCell(levels: seq<bool>, cell: nat, c: nat, o: nat)
    requires c < |levels| && o < cell
    ensures c * cell + o < |Stretch(levels, cell)| == |levels| * cell
    ensures Stretch(levels, cell)[c * cell + o] == levels[c]
  {
    var n := |levels| - 1;
    StretchLength(levels, cell);
    StretchLength(levels[..n], cell);
    assert (c + 1) * cell <= |levels| * cell;
    assert (c + 1) * cell == c * cell + cell;
    if c < n {
      StretchCell(levels[..n], cell, c, o);
    }
  }

  lemma {:induction false} StretchFill(level: bool, n: nat, cell: nat)
    ensures Stretch(Fill(level, n), cell) == Fill(level, n * cell)
  {
    if n > 0 {
      assert Fill(level, n)[..n - 1] == Fill(level, n - 1);
      StretchFill(level, n - 1, cell);
      assert n * cell == (n - 1) * cell + cell;
    }
  }

  lemma {:induction false} StretchCons(level: bool, rest: seq<bool>, cell: nat)
    ensures Stretch([level] + rest, cell) == Fill(level, cell) + Stretch(rest, cell)
  {
    StretchConcat([level], rest, cell);
    assert [level][..0] == [];
    assert Stretch([level], cell) == Stretch([], cell) + Fill(level, cell);
  }

  /** Appending one segment per level. */
  lemma {:induction false} AppendLevels(segments: seq<Segment>, levels: seq<bool>, more: seq<bool>, cell: nat)
    requires Expand(segments) == Stretch(levels, cell)
    ensures Expand(segments + Uniform(more, cell)) == Stretch(levels + more, cell)
  {
    ExpandConcat(segments, Uniform(more, cell));
    ExpandUniform(more, cell);
    StretchConcat(levels, more, cell);
  }

  /** Appending one segment that holds a level for several cells. */
  lemma {:induction false} AppendHold(segments: seq<Segment>, levels: seq<bool>, level: bool, cells: nat, cell: nat)
    requires Expand(segments) == Stretch(levels, cell) && cells > 0 && cell > 0
    ensures Expand(segments + [Segment(level, cell * cells)]) == Stretch(levels + Fill(level, cells), cell)
  {
    ExpandSnoc(segments, Segment(level, cell * cells));
    StretchFill(level, cells, cell);
    StretchConcat(levels, Fill(level, cells), cell);
    assert cell * cells > 0;
  }

  // ---------------------------------------------------------------------------------------
  // Edges
  // ---------------------------------------------------------------------------------------

  /** A level change between samples `index - 1` and `index`. */
  datatype Edge = Edge(index: int, rising: bool)

  ghost predicate IsEdge(c: seq<bool>, i: int) {
    0 < i < |c| && c[i - 1] != c[i]
  }

  /** The edges of a signal, in order. */
  function Edges(c: seq<bool>): seq<Edge> {
    if |c| < 2 then []
    else
      var n := |c| - 1;
      Edges(c[..n]) + (if c[n - 1] != c[n] then [Edge(n, c[n])] else [])
  }

  /** `extract_edges`: the differences of neighbouring samples, then the nonzero ones. */
  method ExtractEdges(c: seq<bool>) returns (edges: seq<Edge>)
    ensures edges == Edges(c)
  {
    if |c| < 2 {
      return [];
    }
    edges := [];
    assert c[..1] == [c[0]];
    for idx := 0 to |c| - 1
      invariant edges == Edges(c[..idx + 1])
    {
      assert c[..idx + 2][..idx + 1] == c[..idx + 1];
      if !c[idx] && c[idx + 1] {
        edges := edges + [Edge(idx + 1, true)];
      } else if c[idx] && !c[idx + 1] {
        edges := edges + [Edge(idx + 1, false)];
      }
    }
    assert c[..|c|] == c;
  }

  ghost predicate Increasing(edges: seq<Edge>) {
    forall i, j :: 0 <= i < j < |edges| ==> edges[i].index < edges[j].index
  }

  ghost predicate AreEdges(c: seq<bool>, edges: seq<Edge>) {
    && Increasing(edges)
    && forall e :: e in edges <==> IsEdge(c, e.index) && e.rising == c[e.index]
  }

  /** Exactly the level changes are reported, once each, in order, with their polarity. */
  lemma {:induction false} EdgesExact(c: seq<bool>)
    ensures AreEdges(c, Edges(c))
  {
    if |c| >= 2 {
      EdgesExact(c[..|c| - 1]);
      EdgesSnoc(c, Edges(c[..|c| - 1]));
    }
  }

  lemma {:induction false} EdgesSnoc(c: seq<bool>, edges: seq<Edge>)
    requires |c| >= 2 && AreEdges(c[..|c| - 1], edges)
    ensures var n := |c| - 1;
      AreEdges(c, edges + (if c[n - 1] != c[n] then [Edge(n, c[n])] else []))
  {
    var n := |c| - 1;
    var all := edges + (if c[n - 1] != c[n] then [Edge(n, c[n])] else []);
    forall i | 0 <= i < |edges| ensures edges[i].index < n {
      assert edges[i] in edges;
    }
    forall e: Edge ensures e in all <==> IsEdge(c, e.index) && e.rising == c[e.index] {
      assert e.index != n ==> (IsEdge(c, e.index) <==> IsEdge(c[..n], e.index));
      assert e in all <==> e in edges || (c[n - 1] != c[n] && e == Edge(n, c[n]));
    }
  }

  lemma {:induction false} FindEdge(c: seq<bool>, edges: seq<Edge>, i: int) returns (k: nat)
    requires AreEdges(c, edges) && IsEdge(c, i)
    ensures k < |edges| && edges[k] == Edge(i, c[i])
  {
    assert Edge(i, c[i]) in edges;
    k :| 0 <= k < |edges| && edges[k] == Edge(i, c[i]);
  }

  lemma {:induction false} EdgeAt(c: seq<bool>, edges: seq<Edge>, k: nat)
    requires AreEdges(c, edges) && k < |edges|
    ensures IsEdge(c, edges[k].index) && edges[k].rising == c[edges[k].index]
  {
    assert edges[k] in edges;
  }

  /** Edges lie at least one sample apart. */
  lemma {:induction false} EdgeGap(edges: seq<Edge>, p: nat, q: nat)
    requires Increasing(edges) && p <= q < |edges|
    ensures edges[q].index - edges[p].index >= q - p
    decreases q - p
  {
    if p < q {
      EdgeGap(edges, p, q - 1);
    }
  }

  /** Neighbouring edges have opposite polarity, and the signal is constant between them. */
  lemma {:induction false} EdgesAlternate(c: seq<bool>, k: nat)
    requires k + 1 < |Edges(c)|
    ensures Edges(c)[k].rising != Edges(c)[k + 1].rising
    ensures 0 < Edges(c)[k].index < Edges(c)[k + 1].index < |c|
    ensures forall i :: Edges(c)[k].index <= i < Edges(c)[k + 1].index ==> c[i] == Edges(c)[k].rising
  {
    EdgesExact(c);
    var a, b := Edges(c)[k], Edges(c)[k + 1];
    assert a in Edges(c) && b in Edges(c);
    NoEdgeBetween(c, Edges(c), k);
    ConstantRun(c, a.index, b.index);
    assert c[b.index - 1] == a.rising;
  }

  lemma {:induction false} NoEdgeBetween(c: seq<bool>, edges: seq<Edge>, k: nat)
    requires AreEdges(c, edges) && k + 1 < |edges|
    ensures forall i :: edges[k].index < i < edges[k + 1].index ==> !IsEdge(c, i)
  {
    forall i | edges[k].index < i < edges[k + 1].index
      ensures !IsEdge(c, i)
    {
      assert Edge(i, i < |c| && 0 <= i && c[i]) !in edges;
    }
  }

  /** Without edges strictly inside a range, the range is constant. */
  lemma {:induction false} ConstantRun(c: seq<bool>, lo: int, hi: int)
    requires 0 <= lo < hi <= |c|
    requires forall i :: lo < i < hi ==> !IsEdge(c, i)
    ensures forall i :: lo <= i < hi ==> c[i] == c[lo]
    decreases hi - lo
  {
    if lo < hi - 1 {
      ConstantRun(c, lo, hi - 1);
      assert !IsEdge(c, hi - 1);
    }
  }

  /** A strictly increasing edge list is determined by its elements. */
  lemma {:induction false} IncreasingUnique(a: seq<Edge>, b: seq<Edge>)
    requires Increasing(a) && Increasing(b)
    requires forall e :: e in a <==> e in b
    ensures a == b
  {
    assert a != [] ==> a[0] in b;
    assert b != [] ==> b[0] in a;
    if a != [] {
      var x, y := a[|a| - 1], b[|b| - 1];
      assert x in b && y in a;
      assert x == y;
      var a', b' := a[..|a| - 1], b[..|b| - 1];
      forall e: Edge ensures e in a' <==> e in b' {
        assert e in a' <==> e in a && e != x;
        assert e in b' <==> e in b && e != y;
      }
      IncreasingUnique(a', b');
    }
  }

  function Shift(edges: seq<Edge>, offset: int): seq<Edge> {
    seq(|edges|, i requires 0 <= i < |edges| => Edge(edges[i].index + offset, edges[i].rising))
  }

  /** Appending a constant run adds at most the edge at the joint. */
  lemma {:induction false} EdgesAppendRun(c: seq<bool>, level: bool, n: nat)
    requires n > 0
    ensures Edges(c + Fill(level, n))
         == Edges(c) + (if |c| > 0 && c[|c| - 1] != level then [Edge(|c|, level)] else [])
  {
    var s := c + Fill(level, n);
    if n == 1 {
      assert s[..|s| - 1] == c;
    } else {
      EdgesAppendRun(c, level, n - 1);
      assert s[..|s| - 1] == c + Fill(level, n - 1);
    }
  }

  lemma {:induction false} EdgesUnique(c: seq<bool>, edges: seq<Edge>)
    requires AreEdges(c, edges)
    ensures edges == Edges(c)
  {
    EdgesExact(c);
    IncreasingUnique(edges, Edges(c));
  }

  /** Edges `from` up to `to` are those that lie strictly between samples `lo` and `hi`. */
  ghost predicate Inside(edges: seq<Edge>, lo: int, hi: int, from: int, to: int) {
    forall k :: 0 <= k < |edges| ==> (from <= k < to <==> lo < edges[k].index < hi)
  }

  /** The edges of a window are the edges that lie strictly inside it, renumbered. */
  lemma {:induction false} EdgesOfWindow(c: seq<bool>, lo: nat, hi: nat, from: nat, to: nat)
    requires lo <= hi <= |c| && from <= to <= |Edges(c)|
    requires Inside(Edges(c), lo, hi, from, to)
    ensures Edges(c[lo..hi]) == Shift(Edges(c)[from..to], 0 - lo as int)
  {
    EdgesExact(c);
    WindowEdges(c, Edges(c), lo, hi, from, to);
    EdgesUnique(c[lo..hi], Shift(Edges(c)[from..to], 0 - lo as int));
  }

  lemma {:induction false} WindowEdges(c: seq<bool>, all: seq<Edge>, lo: nat, hi: nat, from: nat, to: nat)
    requires AreEdges(c, all)
    requires lo <= hi <= |c| && from <= to <= |all|
    requires Inside(all, lo, hi, from, to)
    ensures AreEdges(c[lo..hi], Shift(all[from..to], 0 - lo as int))
  {
    var w, inside := c[lo..hi], Shift(all[from..to], 0 - lo as int);
    forall e: Edge ensures e in inside <==> IsEdge(w, e.index) && e.rising == w[e.index] {
      ShiftMember(all, lo, hi, from, to, e);
      assert lo < e.index + lo < hi ==> (IsEdge(w, e.index) <==> IsEdge(c, e.index + lo));
    }
  }

  lemma {:induction false} ShiftMember(all: seq<Edge>, lo: nat, hi: nat, from: nat, to: nat, e: Edge)
    requires from <= to <= |all|
    requires Inside(all, lo, hi, from, to)
    ensures e in Shift(all[from..to], 0 - lo as int)
       <==> lo < e.index + lo < hi && Edge(e.index + lo, e.rising) in all
  {
    var inside, e' := Shift(all[from..to], 0 - lo as int), Edge(e.index + lo, e.rising);
    if lo < e'.index < hi && e' in all {
      var k :| 0 <= k < |all| && all[k] == e';
      assert inside[k - from] == e;
    }
    if e in inside {
      var k :| 0 <= k < |inside| && inside[k] == e;
      assert all[from + k] == e';
    }
  }

  function Indices(edges: seq<Edge>): seq<int> {
    seq(|edges|, i requires 0 <= i < |edges| => edges[i].index)
  }

  /** The indices of the rising or of the falling edges. */
  function IndicesOf(edges: seq<Edge>, rising: bool): seq<int> {
    if edges == [] then []
    else
      var n := |edges| - 1;
      IndicesOf(edges[..n], rising) + (if edges[n].rising == rising then [edges[n].index] else [])
  }

  /** `inter_edge_intervals`. */
  ghost predicate Ascending(s: seq<int>) {
    forall i, j :: 0 <= i < j < |s| ==> s[i] < s[j]
  }

  lemma {:induction false} IndicesExactly(edges: seq<Edge>, rising: bool)
    requires Increasing(edges)
    ensures Ascending(IndicesOf(edges, rising))
    ensures forall i :: i in IndicesOf(edges, rising) <==> Edge(i, rising) in edges
  {
    if edges != [] {
      var n := |edges| - 1;
      IndicesExactly(edges[..n], rising);
      assert edges == edges[..n] + [edges[n]];
      var front := IndicesOf(edges[..n], rising);
      forall k | 0 <= k < |front| ensures front[k] < edges[n].index {
        assert front[k] in front;
      }
    }
  }

  lemma {:induction false} AscendingCount(s: seq<int>)
    requires Ascending(s)
    ensures |set x | x in s| == |s|
  {
    if s != [] {
      var n := |s| - 1;
      AscendingCount(s[..n]);
      assert s == s[..n] + [s[n]];
      assert (set x | x in s) == (set x | x in s[..n]) + {s[n]};
    }
  }

  function Intervals(edges: seq<Edge>): seq<int> {
    if |edges| < 2 then []
    else seq(|edges| - 1, i requires 0 <= i < |edges| - 1 => edges[i + 1].index - edges[i].index)
  }

  lemma {:induction false} IntervalAt(edges: seq<Edge>, p: nat)
    requires p + 1 < |edges|
    ensures |Intervals(edges)| == |edges| - 1
    ensures Intervals(edges)[p] == edges[p + 1].index - edges[p].index
    ensures edges[p + 1].index - edges[p].index in Intervals(edges)
  {
    assert Intervals(edges)[p] in Intervals(edges);
  }

  lemma {:induction false} IntervalsPositive(c: seq<bool>)
    ensures forall i :: 0 <= i < |Intervals(Edges(c))| ==> Intervals(Edges(c))[i] >= 1
  {
    EdgesExact(c);
  }

  // --- edges of stretched signals

  function Scale(edges: seq<Edge>, cell: nat): seq<Edge> {
    seq(|edges|, i requires 0 <= i < |edges| => Edge(edges[i].index * cell, edges[i].rising))
  }

  /** Stretching a level sequence moves its edges to the cell boundaries and adds none. */
  lemma {:induction false} EdgesStretch(levels: seq<bool>, cell: nat)
    requires cell >= 1
    ensures Edges(Stretch(levels, cell)) == Scale(Edges(levels), cell)
  {
    if |levels| >= 1 {
      var n := |levels| - 1;
      var front, level := levels[..n], levels[n];
      EdgesStretch(front, cell);
      EdgesAppendRun(Stretch(front, cell), level, cell);
      StretchLast(front, cell);
      ScaleSnoc(Edges(front), n, level, cell);
    }
  }

  lemma {:induction false} ScaleSnoc(edges: seq<Edge>, n: int, rising: bool, cell: nat)
    ensures Scale(edges + [Edge(n, rising)], cell) == Scale(edges, cell) + [Edge(n * cell, rising)]
  {
  }

  lemma {:induction false} StretchLast(levels: seq<bool>, cell: nat)
    requires cell >= 1
    ensures |Stretch(levels, cell)| == |levels| * cell
    ensures levels != [] ==>
      |Stretch(levels, cell)| >= 1
      && Stretch(levels, cell)[|Stretch(levels, cell)| - 1] == levels[|levels| - 1]
  {
    StretchLength(levels, cell);
  }

  lemma {:induction false} IntervalsStretch(levels: seq<bool>, cell: nat)
    requires cell >= 1
    ensures |Intervals(Edges(Stretch(levels, cell)))| == |Intervals(Edges(levels))|
    ensures forall i :: 0 <= i < |Intervals(Edges(levels))| ==>
      Intervals(Edges(Stretch(levels, cell)))[i] == Intervals(Edges(levels))[i] * cell
  {
    EdgesStretch(levels, cell);
    IntervalsScale(Edges(levels), cell);
  }

  lemma {:induction false} IntervalsScale(e: seq<Edge>, cell: nat)
    ensures |Intervals(Scale(e, cell))| == |Intervals(e)|
    ensures forall i :: 0 <= i < |Intervals(e)| ==> Intervals(Scale(e, cell))[i] == Intervals(e)[i] * cell
  {
    forall i | 0 <= i < |Intervals(e)|
      ensures Intervals(Scale(e, cell))[i] == Intervals(e)[i] * cell
    {
      assert (e[i + 1].index - e[i].index) * cell == e[i + 1].index * cell - e[i].index * cell;
    }
  }

  // ---------------------------------------------------------------------------------------
  // Run-length encoding of a signal
  // ---------------------------------------------------------------------------------------

  ghost predicate InRange(b: seq<int>, n: nat) {
    forall i :: 0 <= i < |b| ==> 0 <= b[i] < n
  }

  /** Where the runs of a signal begin. */
  function RunStarts(c: seq<bool>): (b: seq<int>)
    ensures c != [] ==> InRange(b, |c|)
  {
    EdgesExact(c);
    assert forall i :: 0 <= i < |Edges(c)| ==> Edges(c)[i] in Edges(c);
    [0] + Indices(Edges(c))
  }

  /** The runs that begin at `starts`, the last of which ends at `end`. */
  function Runs(c: seq<bool>, starts: seq<int>, end: int): seq<Segment>
    requires InRange(starts, |c|)
  {
    if starts == [] then []
    else
      var n := |starts| - 1;
      Runs(c, starts[..n], starts[n]) + [Segment(c[starts[n]], end - starts[n])]
  }

  /** `channel_to_segments`: consecutive boundaries delimit the runs. */
  function ChannelToSegments(c: seq<bool>): seq<Segment> {
    if c == [] then [] else Runs(c, RunStarts(c), |c|)
  }

  /** Appends a segment to a run-length list, merging it with an equal last level. */
  function Push(runs: seq<Segment>, s: Segment): seq<Segment> {
    if s.count <= 0 then runs
    else if runs != [] && runs[|runs| - 1].level == s.level then
      runs[..|runs| - 1] + [Segment(s.level, runs[|runs| - 1].count + s.count)]
    else runs + [s]
  }

  /** The same signal with empty segments dropped and equal neighbours merged. */
  function Coalesce(segments: seq<Segment>): seq<Segment> {
    if segments == [] then []
    else Push(Coalesce(segments[..|segments| - 1]), segments[|segments| - 1])
  }

  lemma {:induction false} RunsOfPrefix(c: seq<bool>, x: bool, starts: seq<int>, end: int)
    requires InRange(starts, |c|)
    ensures InRange(starts, |c + [x]|)
    ensures Runs(c + [x], starts, end) == Runs(c, starts, end)
  {
    if starts != [] {
      var n := |starts| - 1;
      RunsOfPrefix(c, x, starts[..n], starts[n]);
    }
  }

  /** One more sample extends the last run or opens a new one. */
  lemma {:induction false} RunsOfSnoc(c: seq<bool>, x: bool)
    ensures ChannelToSegments(c + [x]) == Push(ChannelToSegments(c), Segment(x, 1))
  {
    if c == [] {
      assert Edges(c + [x]) == [];
      assert RunStarts(c + [x]) == [0];
      assert Runs(c + [x], [0], 1) == Runs(c + [x], [0][..0], 0) + [Segment(x, 1)];
    } else {
      var starts := RunStarts(c);
      assert (c + [x])[..|c|] == c;
      LastRun(c);
      if c[|c| - 1] == x {
        assert RunStarts(c + [x]) == starts;
        ExtendRun(c, x, starts);
      } else {
        assert Indices(Edges(c + [x])) == Indices(Edges(c)) + [|c|];
        assert RunStarts(c + [x]) == starts + [|c|];
        OpenRun(c, x, starts);
      }
    }
  }

  lemma {:induction false} ExtendRun(c: seq<bool>, x: bool, starts: seq<int>)
    requires starts != [] && InRange(starts, |c|) && c[starts[|starts| - 1]] == x
    ensures InRange(starts, |c + [x]|)
    ensures Runs(c + [x], starts, |c| + 1) == Push(Runs(c, starts, |c|), Segment(x, 1))
  {
    var m := |starts| - 1;
    RunsOfPrefix(c, x, starts[..m], starts[m]);
    PushMerges(Runs(c, starts[..m], starts[m]), x, |c| - starts[m], 1);
  }

  lemma {:induction false} OpenRun(c: seq<bool>, x: bool, starts: seq<int>)
    requires starts != [] && InRange(starts, |c|) && c[starts[|starts| - 1]] != x
    ensures InRange(starts + [|c|], |c + [x]|)
    ensures Runs(c + [x], starts + [|c|], |c| + 1) == Push(Runs(c, starts, |c|), Segment(x, 1))
  {
    RunsOfPrefix(c, x, starts, |c|);
    assert (starts + [|c|])[..|starts|] == starts;
    var runs := Runs(c, starts, |c|);
    assert runs[|runs| - 1].level == c[starts[|starts| - 1]];
  }

  lemma {:induction false} LastRun(c: seq<bool>)
    requires c != []
    ensures c[RunStarts(c)[|Edges(c)|]] == c[|c| - 1]
  {
    EdgesExact(c);
    var last := RunStarts(c)[|Edges(c)|];
    forall i | last < i < |c| ensures !IsEdge(c, i) {
      assert Edge(i, c[i]) !in Edges(c) by {
        forall j | 0 <= j < |Edges(c)| ensures Edges(c)[j].index <= last {
          assert last == Edges(c)[|Edges(c)| - 1].index;
        }
      }
    }
    ConstantRun(c, last, |c|);
  }

  lemma {:induction false} PushMerges(front: seq<Segment>, level: bool, k: int, n: nat)
    requires n > 0
    ensures Push(front + [Segment(level, k)], Segment(level, n)) == front + [Segment(level, k + n)]
  {
    var runs := front + [Segment(level, k)];
    assert runs[..|runs| - 1] == front && runs[|runs| - 1] == Segment(level, k);
  }

  lemma {:induction false} PushPush(runs: seq<Segment>, level: bool, m: nat, n: nat)
    requires m > 0 && n > 0
    ensures Push(Push(runs, Segment(level, m)), Segment(level, n)) == Push(runs, Segment(level, m + n))
  {
    if runs != [] && runs[|runs| - 1].level == level {
      var front, k := runs[..|runs| - 1], runs[|runs| - 1].count;
      PushMerges(front, level, k + m, n);
    } else {
      PushMerges(runs, level, m, n);
    }
  }

  lemma {:induction false} RunsOfAppendRun(c: seq<bool>, level: bool, n: nat)
    requires n > 0
    ensures ChannelToSegments(c + Fill(level, n)) == Push(ChannelToSegments(c), Segment(level, n))
  {
    if n == 1 {
      assert Fill(level, 1) == [level];
      RunsOfSnoc(c, level);
    } else {
      RunsOfAppendRun(c, level, n - 1);
      assert c + Fill(level, n) == (c + Fill(level, n - 1)) + [level];
      RunsOfSnoc(c + Fill(level, n - 1), level);
      PushPush(ChannelToSegments(c), level, n - 1, 1);
    }
  }

  /** Encoding what was expanded gives the coalesced segments. */
  lemma {:induction false} EncodeExpand(segments: seq<Segment>)
    ensures ChannelToSegments(Expand(segments)) == Coalesce(segments)
  {
    if segments != [] {
      var n := |segments| - 1;
      var s := segments[n];
      EncodeExpand(segments[..n]);
      assert segments == segments[..n] + [s];
      ExpandSnoc(segments[..n], s);
      if s.count > 0 {
        RunsOfAppendRun(Expand(segments[..n]), s.level, s.count);
      } else {
        assert Expand(segments) == Expand(segments[..n]);
      }
    }
  }

  lemma {:induction false} ExpandPush(runs: seq<Segment>, s: Segment)
    requires runs != [] ==> runs[|runs| - 1].count > 0
    ensures Expand(Push(runs, s)) == Expand(runs) + ExpandOne(s)
  {
    ExpandSnoc(runs, s);
    if s.count > 0 && runs != [] && runs[|runs| - 1].level == s.level {
      var front, last := runs[..|runs| - 1], runs[|runs| - 1];
      assert runs == front + [last];
      ExpandSnoc(front, last);
      ExpandSnoc(front, Segment(s.level, last.count + s.count));
      JoinFills(Expand(front), s.level, last.count, s.count);
    }
  }

  lemma {:induction false} JoinFills(c: seq<bool>, level: bool, m: nat, n: nat)
    ensures c + Fill(level, m) + Fill(level, n) == c + Fill(level, m + n)
  {
  }

  ghost predicate NoneEmpty(runs: seq<Segment>) {
    forall i :: 0 <= i < |runs| ==> runs[i].count > 0
  }

  lemma {:induction false} PushNoneEmpty(runs: seq<Segment>, s: Segment)
    requires NoneEmpty(runs)
    ensures NoneEmpty(Push(runs, s))
  {
  }

  /** Expanding what was encoded gives the signal back; no run is empty. */
  lemma {:induction false} ExpandEncode(c: seq<bool>)
    ensures Expand(ChannelToSegments(c)) == c
    ensures NoneEmpty(ChannelToSegments(c))
  {
    if c != [] {
      var n := |c| - 1;
      ExpandEncode(c[..n]);
      assert c == c[..n] + [c[n]];
      RunsOfSnoc(c[..n], c[n]);
      ExpandPush(ChannelToSegments(c[..n]), Segment(c[n], 1));
      PushNoneEmpty(ChannelToSegments(c[..n]), Segment(c[n], 1));
      assert ExpandOne(Segment(c[n], 1)) == [c[n]];
    }
  }

  ghost predicate Coalesced(segments: seq<Segment>) {
    && (forall i :: 0 <= i < |segments| ==> segments[i].count > 0)
    && (forall i, j :: 0 <= i < j < |segments| && j == i + 1 ==> segments[i].level != segments[j].level)
  }

  lemma {:induction false} CoalesceCoalesced(segments: seq<Segment>)
    requires Coalesced(segments)
    ensures Coalesce(segments) == segments
  {
    if segments != [] {
      var n := |segments| - 1;
      CoalesceCoalesced(segments[..n]);
      PushAlternating(segments);
    }
  }

  lemma {:induction false} PushAlternating(segments: seq<Segment>)
    requires segments != [] && Coalesced(segments)
    ensures Push(segments[..|segments| - 1], segments[|segments| - 1]) == segments
  {
    var n := |segments| - 1;
    assert n > 0 ==> segments[n - 1].level != segments[n].level;
    assert segments[..n] + [segments[n]] == segments;
  }
}
