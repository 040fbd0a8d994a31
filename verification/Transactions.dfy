/** I2C transaction summaries (src/slidko/narrate/transaction_summary.py): splitting the event
    stream into spans, grouping them by address, and counting their NAKs. */
module Transactions {
  import opened Numbers
  import opened Results
  import opened Events
  import opened Sorting
  import Smoke

  /** One transaction: the address last seen in it and the indices of its events. */
  datatype Span = Span(address: Option<int>, indices: seq<int>)

  /** The spans closed so far and the one still open. */
  datatype Scan = Scan(closed: seq<Span>, current: Option<Span>)

  datatype Group = Group(address: int, spans: seq<Span>)

  datatype Summary = Summary(address: int, transactions: nat, naks: nat, evidence: seq<int>)

  // ---------------------------------------------------------------------------------------
  // Splitting
  // ---------------------------------------------------------------------------------------

  function Extend(span: Span, event: Event, i: int): Span {
    Span(if event.kind == I2cAddress then event.address else span.address, span.indices + [i])
  }

  /** One turn of the splitting loop. */
  function Step(scan: Scan, event: Event, i: int): Scan {
    if event.kind == I2cStart then
      Scan(Finish(scan), Some(Span(None, [i])))
    else
      match scan.current
      case None => scan
      case Some(span) =>
        if event.kind == I2cStop then Scan(scan.closed + [Extend(span, event, i)], None)
        else Scan(scan.closed, Some(Extend(span, event, i)))
  }

  function Finish(scan: Scan): seq<Span> {
    match scan.current
    case None => scan.closed
    case Some(span) => scan.closed + [span]
  }

  function ScanOf(events: seq<Event>): Scan {
    if events == [] then Scan([], None)
    else
      var n := |events| - 1;
      Step(ScanOf(events[..n]), events[n], n)
  }

  function Spans(events: seq<Event>): seq<Span> {
    Finish(ScanOf(events))
  }

  method SplitSpans(events: seq<Event>) returns (spans: seq<Span>)
    ensures spans == Spans(events)
  {
    spans := [];
    var current: Option<Span> := None;
    for i := 0 to |events|
      invariant Scan(spans, current) == ScanOf(events[..i])
    {
      assert events[..i + 1][..i] == events[..i];
      var event := events[i];
      if event.kind == I2cStart {
        if current.Some? {
          spans := spans + [current.value];
        }
        current := Some(Span(None, [i]));
        continue;
      }
      if current.None? {
        continue;
      }
      current := Some(current.value.(indices := current.value.indices + [i]));
      if event.kind == I2cAddress {
        current := Some(current.value.(address := event.address));
      }
      if event.kind == I2cStop {
        spans := spans + [current.value];
        current := None;
      }
    }
    assert events[..|events|] == events;
    if current.Some? {
      spans := spans + [current.value];
    }
  }

  // ---------------------------------------------------------------------------------------
  // What the spans are, without the loop
  // ---------------------------------------------------------------------------------------

  /** The positions of the start conditions. */
  function Starts(events: seq<Event>): seq<int> {
    if events == [] then []
    else
      var n := |events| - 1;
      Starts(events[..n]) + (if events[n].kind == I2cStart then [n] else [])
  }

  function Interval(from: int, to: int): seq<int>
    requires from <= to
  {
    seq(to - from, i requires 0 <= i < to - from => from + i)
  }

  /** The address carried by the last address event, if there is one. */
  function LastAddress(events: seq<Event>): Option<int> {
    if events == [] then None
    else
      var n := |events| - 1;
      if events[n].kind == I2cAddress then events[n].address else LastAddress(events[..n])
  }

  /** The events `from` up to `to` begin with a start, contain no other, and contain no stop
      except perhaps at the end. */
  ghost predicate Uninterrupted(events: seq<Event>, from: int, to: int) {
    && 0 <= from < to <= |events|
    && events[from].kind == I2cStart
    && (forall k :: from < k < to ==> events[k].kind != I2cStart)
    && (forall k :: from < k < to - 1 ==> events[k].kind != I2cStop)
  }

  /** Something ends them: a stop as their last event, or a start right behind them. */
  ghost predicate Ended(events: seq<Event>, from: int, to: int)
    requires 0 <= from < to <= |events|
  {
    (to - 1 > from && events[to - 1].kind == I2cStop) || (to < |events| && events[to].kind == I2cStart)
  }

  ghost predicate Spanning(events: seq<Event>, span: Span, from: int, to: int) {
    && Uninterrupted(events, from, to)
    && span == Span(LastAddress(events[from..to]), Interval(from, to))
  }

  /** `span` is the whole transaction that begins at `from`. */
  ghost predicate IsTransaction(events: seq<Event>, span: Span, from: int) {
    var to := from + |span.indices|;
    Spanning(events, span, from, to) && (to == |events| || Ended(events, from, to))
  }

  ghost predicate IsClosed(events: seq<Event>, span: Span, from: int) {
    var to := from + |span.indices|;
    Spanning(events, span, from, to) && Ended(events, from, to)
  }

  ghost predicate IsOpen(events: seq<Event>, span: Span, from: int) {
    Spanning(events, span, from, |events|) && !Ended(events, from, |events|)
  }

  ghost predicate AllClosed(events: seq<Event>, spans: seq<Span>, starts: seq<int>)
    requires |spans| <= |starts|
  {
    forall k :: 0 <= k < |spans| ==> IsClosed(events, spans[k], starts[k])
  }

  /** The loop invariant, said without the loop. */
  ghost predicate ScanInvariant(events: seq<Event>, scan: Scan, starts: seq<int>) {
    match scan.current
    case None =>
      && |starts| == |scan.closed|
      && AllClosed(events, scan.closed, starts)
    case Some(span) =>
      && |starts| == |scan.closed| + 1
      && AllClosed(events, scan.closed, starts)
      && IsOpen(events, span, starts[|scan.closed|])
  }

  lemma {:induction false} SpanningStays(events: seq<Event>, e: Event, span: Span, from: int, to: int)
    requires Spanning(events, span, from, to)
    ensures Spanning(events + [e], span, from, to)
  {
    assert (events + [e])[from..to] == events[from..to];
  }

  lemma {:induction false} ClosedStays(events: seq<Event>, e: Event, span: Span, from: int)
    requires IsClosed(events, span, from)
    ensures IsClosed(events + [e], span, from)
  {
    SpanningStays(events, e, span, from, from + |span.indices|);
  }

  lemma {:induction false} AllClosedStays(events: seq<Event>, e: Event, spans: seq<Span>, starts: seq<int>)
    requires |spans| <= |starts| && AllClosed(events, spans, starts)
    ensures AllClosed(events + [e], spans, starts)
  {
    hide IsClosed;
    forall k | 0 <= k < |spans| ensures IsClosed(events + [e], spans[k], starts[k]) {
      ClosedStays(events, e, spans[k], starts[k]);
    }
  }

  /** A start closes the open span in front of it. */
  lemma {:induction false} StartCloses(events: seq<Event>, e: Event, span: Span, from: int)
    requires IsOpen(events, span, from) && e.kind == I2cStart
    ensures IsClosed(events + [e], span, from)
  {
    SpanningStays(events, e, span, from, |events|);
    assert |span.indices| == |events| - from;
  }

  lemma {:induction false} StartOpens(events: seq<Event>, e: Event)
    requires e.kind == I2cStart
    ensures IsOpen(events + [e], Span(None, [|events|]), |events|)
  {
    var all, n := events + [e], |events|;
    assert all[n..n + 1] == [e];
    assert [e][..0] == [];
    assert LastAddress([e]) == LastAddress([]);
    assert Interval(n, n + 1) == [n];
  }

  /** Any other event joins the open span; a stop closes it. */
  lemma {:induction false} EventJoins(events: seq<Event>, e: Event, span: Span, from: int)
    requires IsOpen(events, span, from) && e.kind != I2cStart
    ensures var longer := Extend(span, e, |events|);
      if e.kind == I2cStop then IsClosed(events + [e], longer, from) else IsOpen(events + [e], longer, from)
  {
    var all, n := events + [e], |events|;
    assert all[from..n + 1] == events[from..n] + [e];
    AddressSnoc(events[from..n], e);
    assert Interval(from, n + 1) == Interval(from, n) + [n];
    UninterruptedSnoc(events, e, from);
    assert |Extend(span, e, n).indices| == n + 1 - from;
    assert all[n] == e;
  }

  lemma {:induction false} UninterruptedSnoc(events: seq<Event>, e: Event, from: int)
    requires Uninterrupted(events, from, |events|) && !Ended(events, from, |events|) && e.kind != I2cStart
    ensures Uninterrupted(events + [e], from, |events| + 1)
  {
  }

  lemma {:induction false} AddressSnoc(events: seq<Event>, e: Event)
    ensures LastAddress(events + [e]) == if e.kind == I2cAddress then e.address else LastAddress(events)
  {
    assert (events + [e])[..|events|] == events;
  }

  lemma {:induction false} StepKeeps(events: seq<Event>, scan: Scan, starts: seq<int>, e: Event)
    requires ScanInvariant(events, scan, starts)
    ensures ScanInvariant(events + [e], Step(scan, e, |events|),
                          starts + (if e.kind == I2cStart then [|events|] else []))
  {
    hide IsClosed, IsOpen, AllClosed, Extend;
    AllClosedStays(events, e, scan.closed, starts);
    var n := |scan.closed|;
    if e.kind == I2cStart {
      StartOpens(events, e);
      if scan.current.Some? {
        StartCloses(events, e, scan.current.value, starts[n]);
      }
      StartKeeps(events + [e], scan, starts, |events|);
    } else {
      assert starts + [] == starts;
      if scan.current.Some? {
        EventJoins(events, e, scan.current.value, starts[n]);
        if e.kind == I2cStop {
          AllClosedSnoc(events + [e], scan.closed, starts, Extend(scan.current.value, e, |events|));
        }
      }
    }
  }

  lemma {:induction false} AllClosedSnoc(events: seq<Event>, spans: seq<Span>, starts: seq<int>, span: Span)
    requires |spans| < |starts| && AllClosed(events, spans, starts) && IsClosed(events, span, starts[|spans|])
    ensures AllClosed(events, spans + [span], starts)
  {
    hide IsClosed;
  }

  lemma {:induction false} StartKeeps(events: seq<Event>, scan: Scan, starts: seq<int>, i: int)
    requires |starts| == |Finish(scan)| && AllClosed(events, scan.closed, starts)
    requires scan.current.Some? ==> IsClosed(events, scan.current.value, starts[|scan.closed|])
    requires IsOpen(events, Span(None, [i]), i)
    ensures ScanInvariant(events, Scan(Finish(scan), Some(Span(None, [i]))), starts + [i])
  {
    hide IsClosed, IsOpen;
  }

  lemma {:induction false} ScanKeepsInvariant(events: seq<Event>)
    ensures ScanInvariant(events, ScanOf(events), Starts(events))
  {
    hide ScanInvariant, Step;
    if events == [] {
      NothingScanned();
    } else {
      var n := |events| - 1;
      ScanKeepsInvariant(events[..n]);
      assert events == events[..n] + [events[n]];
      StepKeeps(events[..n], ScanOf(events[..n]), Starts(events[..n]), events[n]);
    }
  }

  lemma {:induction false} NothingScanned()
    ensures ScanInvariant([], Scan([], None), [])
  {
  }

  /** There is one span per start condition, in order, and each is the whole transaction that
      begins there. */
  lemma {:induction false} SpansAreTransactions(events: seq<Event>)
    ensures |Spans(events)| == |Starts(events)|
    ensures forall k :: 0 <= k < |Spans(events)| ==> IsTransaction(events, Spans(events)[k], Starts(events)[k])
  {
    hide ScanOf, Starts, Spanning, Ended;
    ScanKeepsInvariant(events);
    var scan, starts := ScanOf(events), Starts(events);
    if scan.current.Some? {
      OpenIsTransaction(events, scan.current.value, starts[|scan.closed|]);
    }
    forall k | 0 <= k < |scan.closed| ensures IsTransaction(events, scan.closed[k], starts[k]) {
      assert IsClosed(events, scan.closed[k], starts[k]);
    }
  }

  lemma {:induction false} OpenIsTransaction(events: seq<Event>, span: Span, from: int)
    requires IsOpen(events, span, from)
    ensures IsTransaction(events, span, from)
  {
    assert |span.indices| == |events| - from;
  }

  lemma {:induction false} StartsExact(events: seq<Event>, i: int)
    ensures i in Starts(events) <==> 0 <= i < |events| && events[i].kind == I2cStart
    ensures forall j, k :: 0 <= j < k < |Starts(events)| ==> Starts(events)[j] < Starts(events)[k]
  {
    if events != [] {
      var n := |events| - 1;
      StartsExact(events[..n], i);
      StartsInRange(events[..n]);
      StartsStep(events);
      StartsStepExact(events, Starts(events[..n]), i);
    }
  }

  lemma {:induction false} StartsStep(events: seq<Event>)
    requires events != []
    ensures var n := |events| - 1;
      Starts(events) == Starts(events[..n]) + (if events[n].kind == I2cStart then [n] else [])
  {
  }

  lemma {:induction false} StartsStepExact(events: seq<Event>, before: seq<int>, i: int)
    requires events != []
    requires i in before <==> 0 <= i < |events| - 1 && events[i].kind == I2cStart
    requires forall k :: 0 <= k < |before| ==> before[k] < |events| - 1
    requires forall j, k :: 0 <= j < k < |before| ==> before[j] < before[k]
    ensures var n := |events| - 1;
      var all := before + (if events[n].kind == I2cStart then [n] else []);
      && (i in all <==> 0 <= i < |events| && events[i].kind == I2cStart)
      && forall j, k :: 0 <= j < k < |all| ==> all[j] < all[k]
  {
  }

  lemma {:induction false} StartsInRange(events: seq<Event>)
    ensures forall k :: 0 <= k < |Starts(events)| ==>
      0 <= Starts(events)[k] < |events| && events[Starts(events)[k]].kind == I2cStart
  {
    if events != [] {
      StartsInRange(events[..|events| - 1]);
    }
  }

  // ---------------------------------------------------------------------------------------
  // Partition
  // ---------------------------------------------------------------------------------------

  ghost predicate InSpan(events: seq<Event>, k: int, i: int)
    requires 0 <= k < |Spans(events)|
  {
    i in Spans(events)[k].indices
  }

  lemma {:induction false} IntervalMembers(from: int, to: int, i: int)
    requires from <= to
    ensures i in Interval(from, to) <==> from <= i < to
  {
    if from <= i < to {
      assert Interval(from, to)[i - from] == i;
    }
  }

  /** Span `k` holds exactly the events from its start to its end. */
  lemma {:induction false} SpanBounds(events: seq<Event>, k: int, i: int) returns (from: int, to: int)
    requires 0 <= k < |Spans(events)|
    ensures |Starts(events)| == |Spans(events)| && from == Starts(events)[k]
    ensures Spanning(events, Spans(events)[k], from, to)
    ensures to == |events| || Ended(events, from, to)
    ensures InSpan(events, k, i) <==> from <= i < to
  {
    hide ScanOf, Starts, LastAddress;
    SpansAreTransactions(events);
    from := Starts(events)[k];
    assert IsTransaction(events, Spans(events)[k], from);
    to := from + |Spans(events)[k].indices|;
    IntervalMembers(from, to, i);
  }

  /** No event lies in two spans. */
  lemma {:induction false} SpansDisjoint(events: seq<Event>, j: int, k: int, i: int)
    requires 0 <= j < |Spans(events)| && 0 <= k < |Spans(events)|
    requires InSpan(events, j, i) && InSpan(events, k, i)
    ensures j == k
  {
    hide Spans, Starts, LastAddress;
    var a, b := SpanBounds(events, j, i);
    var c, d := SpanBounds(events, k, i);
    StartsExact(events, i);
  }

  /** An event that follows a start with no stop in between. */
  ghost predicate Covered(events: seq<Event>, i: int) {
    && 0 <= i < |events|
    && exists j :: OpenedBy(events, j, i)
  }

  ghost predicate OpenedBy(events: seq<Event>, j: int, i: int) {
    && 0 <= j <= i < |events|
    && events[j].kind == I2cStart
    && forall k :: j < k < i ==> events[k].kind != I2cStop
  }

  /** The last of several starts. */
  lemma {:induction false} LastStart(events: seq<Event>, starts: seq<int>, i: int) returns (k: int)
    requires starts != [] && starts[0] <= i
    requires forall a, b :: 0 <= a < b < |starts| ==> starts[a] < starts[b]
    ensures 0 <= k < |starts| && starts[k] <= i
    ensures forall b :: k < b < |starts| ==> starts[b] > i
  {
    var n := |starts| - 1;
    if starts[n] <= i {
      k := n;
    } else {
      k := LastStart(events, starts[..n], i);
    }
  }

  /** An event belongs to some span exactly when a start precedes it with no stop in between. */
  lemma {:induction false} CoveredExactly(events: seq<Event>, i: int)
    ensures Covered(events, i) <==> exists k :: 0 <= k < |Spans(events)| && InSpan(events, k, i)
  {
    hide Spans, Starts;
    if k :| 0 <= k < |Spans(events)| && InSpan(events, k, i) {
      SpanOpens(events, k, i);
    }
    if Covered(events, i) {
      var k := SpanOf(events, i);
    }
  }

  lemma {:induction false} SpanOpens(events: seq<Event>, k: int, i: int)
    requires 0 <= k < |Spans(events)| && InSpan(events, k, i)
    ensures Covered(events, i)
  {
    hide Spans, Starts, InSpan;
    var from, to := SpanBounds(events, k, i);
    assert OpenedBy(events, from, i);
  }

  lemma {:induction false} SpanOf(events: seq<Event>, i: int) returns (k: int)
    requires Covered(events, i)
    ensures 0 <= k < |Spans(events)| && InSpan(events, k, i)
  {
    hide Spans, Starts, InSpan, LastAddress, Interval;
    var j :| OpenedBy(events, j, i);
    StartsExact(events, j);
    var p :| 0 <= p < |Starts(events)| && Starts(events)[p] == j;
    assert Starts(events)[0] <= Starts(events)[p];
    k := LastStart(events, Starts(events), i);
    SpansAreTransactions(events);
    var from, to := SpanBounds(events, k, i);
    assert from >= j by {
      if k > p {
        assert Starts(events)[p] < Starts(events)[k];
      }
    }
    forall b | from < b <= i ensures events[b].kind != I2cStart {
      StartsExact(events, b);
    }
    EndsBehind(events, j, from, to, i);
  }

  /** A transaction without a further start or stop up to `i` does not end before it. */
  lemma {:induction false} EndsBehind(events: seq<Event>, j: int, from: int, to: int, i: int)
    requires OpenedBy(events, j, i) && j <= from <= i && from < to <= |events|
    requires forall b :: from < b <= i ==> events[b].kind != I2cStart
    requires to == |events| || Ended(events, from, to)
    ensures i < to
  {
  }

  // ---------------------------------------------------------------------------------------
  // Grouping
  // ---------------------------------------------------------------------------------------

  /** The position of an address among the groups, or their number. */
  function Find(groups: seq<Group>, address: int): (p: nat)
    ensures p <= |groups|
    ensures p < |groups| ==> groups[p].address == address
    ensures forall q :: 0 <= q < p ==> groups[q].address != address
  {
    if groups == [] then 0
    else if groups[0].address == address then 0
    else
      var p := Find(groups[1..], address);
      assert forall q :: 1 <= q < p + 1 ==> groups[q] == groups[1..][q - 1];
      p + 1
  }

  /** `by_address.setdefault(addr, []).append(transaction)`. */
  function Add(groups: seq<Group>, address: int, span: Span): seq<Group> {
    var p := Find(groups, address);
    if p < |groups| then groups[p := Group(address, groups[p].spans + [span])]
    else groups + [Group(address, [span])]
  }

  function Grouped(spans: seq<Span>): seq<Group> {
    if spans == [] then []
    else
      var n := |spans| - 1;
      if spans[n].address.None? then Grouped(spans[..n])
      else Add(Grouped(spans[..n]), spans[n].address.value, spans[n])
  }

  method GroupByAddress(spans: seq<Span>) returns (groups: seq<Group>)
    ensures groups == Grouped(spans)
  {
    groups := [];
    for i := 0 to |spans|
      invariant groups == Grouped(spans[..i])
    {
      assert spans[..i + 1][..i] == spans[..i];
      var address := spans[i].address;
      if address.Some? {
        groups := Add(groups, address.value, spans[i]);
      }
    }
    assert spans[..|spans|] == spans;
  }

  /** The spans to one address, in order. */
  function SpansTo(spans: seq<Span>, address: int): seq<Span> {
    if spans == [] then []
    else
      var n := |spans| - 1;
      SpansTo(spans[..n], address) + (if spans[n].address == Some(address) then [spans[n]] else [])
  }

  ghost predicate DistinctAddresses(groups: seq<Group>) {
    forall p, q :: 0 <= p < q < |groups| ==> groups[p].address != groups[q].address
  }

  ghost predicate GroupsOf(groups: seq<Group>, spans: seq<Span>) {
    && DistinctAddresses(groups)
    && (forall p :: 0 <= p < |groups| ==> groups[p].spans == SpansTo(spans, groups[p].address))
    && (forall address :: SpansTo(spans, address) != [] ==>
          exists p :: 0 <= p < |groups| && groups[p].address == address)
  }

  /** One group per address seen, holding exactly the spans to it, in order. */
  lemma {:induction false} GroupsExactly(spans: seq<Span>)
    ensures GroupsOf(Grouped(spans), spans)
  {
    hide GroupsOf;
    if spans == [] {
      NoGroups();
    } else {
      var n := |spans| - 1;
      GroupsExactly(spans[..n]);
      GroupsStep(Grouped(spans[..n]), spans);
    }
  }

  lemma {:induction false} NoGroups()
    ensures GroupsOf([], [])
  {
  }

  lemma {:induction false} GroupsStep(groups: seq<Group>, spans: seq<Span>)
    requires spans != [] && GroupsOf(groups, spans[..|spans| - 1])
    ensures var last := spans[|spans| - 1];
      GroupsOf(if last.address.None? then groups else Add(groups, last.address.value, last), spans)
  {
    hide SpansTo, Find;
    var front, last := spans[..|spans| - 1], spans[|spans| - 1];
    forall address
      ensures SpansTo(spans, address)
           == SpansTo(front, address) + (if last.address == Some(address) then [last] else [])
    {
      SpansToStep(spans, address);
    }
    if last.address.None? {
      forall address ensures SpansTo(spans, address) == SpansTo(front, address) {
        assert SpansTo(front, address) + [] == SpansTo(front, address);
      }
    } else {
      AddKeeps(groups, front, spans, last.address.value, last);
    }
  }

  lemma {:induction false} SpansToStep(spans: seq<Span>, address: int)
    requires spans != []
    ensures var n := |spans| - 1;
      SpansTo(spans, address) == SpansTo(spans[..n], address)
        + (if spans[n].address == Some(address) then [spans[n]] else [])
  {
  }

  lemma {:induction false} AddKeeps(groups: seq<Group>, front: seq<Span>, spans: seq<Span>, address: int, span: Span)
    requires GroupsOf(groups, front) && span.address == Some(address)
    requires forall a :: SpansTo(spans, a) == SpansTo(front, a) + (if a == address then [span] else [])
    ensures GroupsOf(Add(groups, address, span), spans)
  {
    hide SpansTo, Find;
    var all, p := Add(groups, address, span), Find(groups, address);
    forall q | 0 <= q < |all| ensures all[q].spans == SpansTo(spans, all[q].address) {
      if q != p {
        assert all[q] == groups[q];
        assert SpansTo(front, groups[q].address) + [] == SpansTo(front, groups[q].address);
      } else if p == |groups| {
        assert SpansTo(front, address) == [];
        assert [] + [span] == [span];
      }
    }
    forall a | SpansTo(spans, a) != [] ensures exists q :: 0 <= q < |all| && all[q].address == a {
      if a == address {
        assert all[p].address == a;
      } else {
        assert SpansTo(front, a) + [] == SpansTo(front, a);
        var q :| 0 <= q < |groups| && groups[q].address == a;
        assert all[q].address == a;
      }
    }
  }

  // ---------------------------------------------------------------------------------------
  // Summaries
  // ---------------------------------------------------------------------------------------

  /** The indices of the given spans, span by span. */
  function Flat(spans: seq<Span>): seq<int> {
    if spans == [] then []
    else Flat(spans[..|spans| - 1]) + spans[|spans| - 1].indices
  }

  ghost predicate Valid(events: seq<Event>, indices: seq<int>) {
    forall i :: 0 <= i < |indices| ==> 0 <= indices[i] < |events|
  }

  function Naks(events: seq<Event>, indices: seq<int>): nat
    requires Valid(events, indices)
  {
    if indices == [] then 0
    else
      var n := |indices| - 1;
      Naks(events, indices[..n]) + (if events[indices[n]].kind == I2cNak then 1 else 0)
  }

  function SummaryOf(events: seq<Event>, group: Group): Summary
    requires Valid(events, Flat(group.spans))
  {
    Summary(group.address, |group.spans|, Naks(events, Flat(group.spans)), Sorted(Flat(group.spans)))
  }

  ghost predicate AllValid(events: seq<Event>, groups: seq<Group>) {
    forall p :: 0 <= p < |groups| ==> Valid(events, Flat(groups[p].spans))
  }

  function SummariesOf(events: seq<Event>, groups: seq<Group>): seq<Summary>
    requires AllValid(events, groups)
  {
    seq(|groups|, p requires 0 <= p < |groups| => SummaryOf(events, groups[p]))
  }

  /** What `summarize_transactions` promises. */
  function Summaries(events: seq<Event>): seq<Summary> {
    GroupsAreValid(events);
    SummariesOf(events, Grouped(Spans(events)))
  }

  method Summarize(events: seq<Event>) returns (summaries: seq<Summary>)
    ensures summaries == Summaries(events)
  {
    summaries := [];
    if events == [] {
      NoEventsNoGroups(events);
      return;
    }
    var transactions := SplitSpans(events);
    var groups := GroupByAddress(transactions);
    GroupsAreValid(events);
    for p := 0 to |groups|
      invariant AllValid(events, groups[..p])
      invariant summaries == SummariesOf(events, groups[..p])
    {
      assert groups[..p + 1] == groups[..p] + [groups[p]];
      var contributing := Flat(groups[p].spans);
      var naks := CountNaks(events, contributing);
      summaries := summaries + [Summary(groups[p].address, |groups[p].spans|, naks, Sorted(contributing))];
    }
    assert groups[..|groups|] == groups;
  }

  /** `sum(1 for i in ... if ...)`. */
  method CountNaks(events: seq<Event>, indices: seq<int>) returns (count: nat)
    requires Valid(events, indices)
    ensures count == Naks(events, indices)
  {
    count := 0;
    for i := 0 to |indices|
      invariant count == Naks(events, indices[..i])
    {
      assert indices[..i + 1][..i] == indices[..i];
      if events[indices[i]].kind == I2cNak {
        count := count + 1;
      }
    }
    assert indices[..|indices|] == indices;
  }

  lemma {:induction false} NoEventsNoGroups(events: seq<Event>)
    requires events == []
    ensures Grouped(Spans(events)) == []
  {
  }

  // --- indices of a list of spans

  /** Every span holds valid indices, in increasing order, behind those of the span before. */
  ghost predicate Chained(events: seq<Event>, spans: seq<Span>) {
    forall k :: 0 <= k < |spans| ==> Valid(events, spans[k].indices)
  }

  lemma {:induction false} FlatSnoc(spans: seq<Span>, span: Span)
    ensures Flat(spans + [span]) == Flat(spans) + span.indices
  {
    assert (spans + [span])[..|spans|] == spans;
  }

  lemma {:induction false} FlatValid(events: seq<Event>, spans: seq<Span>)
    requires Chained(events, spans)
    ensures Valid(events, Flat(spans))
  {
    if spans != [] {
      FlatValid(events, spans[..|spans| - 1]);
    }
  }

  lemma {:induction false} SpanIsValid(events: seq<Event>, k: int)
    requires 0 <= k < |Spans(events)|
    ensures Valid(events, Spans(events)[k].indices)
  {
    hide Spans, Starts, LastAddress, InSpan;
    var from, to := SpanBounds(events, k, 0);
  }

  lemma {:induction false} SpansToMember(spans: seq<Span>, address: int, p: int) returns (k: int)
    requires 0 <= p < |SpansTo(spans, address)|
    ensures 0 <= k < |spans| && SpansTo(spans, address)[p] == spans[k] && spans[k].address == Some(address)
  {
    var n := |spans| - 1;
    if p < |SpansTo(spans[..n], address)| {
      k := SpansToMember(spans[..n], address, p);
    } else {
      k := n;
    }
  }

  lemma {:induction false} SpansToChained(events: seq<Event>, address: int)
    ensures Chained(events, SpansTo(Spans(events), address))
  {
    hide Spans, SpansTo, Valid;
    forall p | 0 <= p < |SpansTo(Spans(events), address)|
      ensures Valid(events, SpansTo(Spans(events), address)[p].indices)
    {
      var k := SpansToMember(Spans(events), address, p);
      SpanIsValid(events, k);
    }
  }

  lemma {:induction false} GroupsAreValid(events: seq<Event>)
    ensures AllValid(events, Grouped(Spans(events)))
  {
    hide Spans, Grouped, SpansTo, Valid, Flat;
    GroupsExactly(Spans(events));
    var groups := Grouped(Spans(events));
    forall p | 0 <= p < |groups| ensures Valid(events, Flat(groups[p].spans)) {
      SpansToChained(events, groups[p].address);
      FlatValid(events, groups[p].spans);
    }
  }

  // ---------------------------------------------------------------------------------------
  // Evidence
  // ---------------------------------------------------------------------------------------

  lemma {:induction false} IncreasingConcat(a: seq<int>, b: seq<int>, bound: int)
    requires StrictlyIncreasing(a) && StrictlyIncreasing(b)
    requires forall i :: 0 <= i < |a| ==> a[i] < bound
    requires forall i :: 0 <= i < |b| ==> bound <= b[i]
    ensures StrictlyIncreasing(a + b)
  {
  }

  /** The indices of the spans to one address among the first `n` spans increase strictly and
      lie before the next start. */
  lemma {:induction false} SpansToIncrease(events: seq<Event>, address: int, n: int, bound: int)
    requires 0 <= n <= |Spans(events)|
    requires |Starts(events)| == |Spans(events)|
    requires if n < |Spans(events)| then bound == Starts(events)[n] else bound == |events|
    ensures var flat := Flat(SpansTo(Spans(events)[..n], address));
      StrictlyIncreasing(flat) && forall i :: 0 <= i < |flat| ==> flat[i] < bound
  {
    hide Spans, Starts, LastAddress, InSpan, SpansTo, Flat;
    var spans := Spans(events);
    if n == 0 {
      NoSpansTo(spans[..0], address);
    } else {
      SpansToIncrease(events, address, n - 1, Starts(events)[n - 1]);
      assert spans[..n][..n - 1] == spans[..n - 1];
      SpansToStep(spans[..n], address);
      StartBefore(events, n, bound);
      if spans[n - 1].address == Some(address) {
        FlatSnoc(SpansTo(spans[..n - 1], address), spans[n - 1]);
        SpanEndsBefore(events, n - 1, bound);
        IncreasingConcat(Flat(SpansTo(spans[..n - 1], address)), spans[n - 1].indices, Starts(events)[n - 1]);
      } else {
        assert SpansTo(spans[..n - 1], address) + [] == SpansTo(spans[..n - 1], address);
      }
    }
  }

  lemma {:induction false} NoSpansTo(spans: seq<Span>, address: int)
    requires spans == []
    ensures Flat(SpansTo(spans, address)) == []
  {
  }

  lemma {:induction false} StartBefore(events: seq<Event>, n: int, bound: int)
    requires 0 < n <= |Starts(events)|
    requires if n < |Starts(events)| then bound == Starts(events)[n] else bound == |events|
    ensures Starts(events)[n - 1] < bound
  {
    StartsExact(events, 0);
    StartsInRange(events);
  }

  /** A span's indices increase strictly from its start and end before the next start. */
  lemma {:induction false} SpanEndsBefore(events: seq<Event>, k: int, bound: int)
    requires 0 <= k < |Spans(events)| == |Starts(events)|
    requires if k + 1 < |Starts(events)| then bound == Starts(events)[k + 1] else bound == |events|
    ensures StrictlyIncreasing(Spans(events)[k].indices)
    ensures forall i :: 0 <= i < |Spans(events)[k].indices| ==>
      Starts(events)[k] <= Spans(events)[k].indices[i] < bound
  {
    hide Spans, Starts, LastAddress, InSpan;
    var from, to := SpanBounds(events, k, 0);
    StartsExact(events, bound);
    StartsInRange(events);
    if k + 1 < |Starts(events)| {
      assert from < bound && events[bound].kind == I2cStart;
    }
  }

  /** Each address is summarized once, over all its transactions, and its evidence lists their
      events in increasing order: the final sort changes nothing. */
  lemma {:induction false} SummariesExactly(events: seq<Event>, p: int)
    requires 0 <= p < |Summaries(events)|
    ensures var summary := Summaries(events)[p];
      var spans := SpansTo(Spans(events), summary.address);
      && summary.transactions == |spans|
      && summary.evidence == Flat(spans)
      && StrictlyIncreasing(summary.evidence)
      && (forall q :: 0 <= q < |Summaries(events)| && q != p ==> Summaries(events)[q].address != summary.address)
  {
    hide Spans, Grouped, SpansTo, Starts, Flat, Sorted, StrictlyIncreasing, Naks;
    var spans := Spans(events);
    GroupsAreValid(events);
    GroupsExactly(spans);
    var group := Grouped(spans)[p];
    SpansAreTransactions(events);
    SpansToIncrease(events, group.address, |spans|, |events|);
    assert spans[..|spans|] == spans;
    SortedOfIncreasing(Flat(group.spans));
  }

  // ---------------------------------------------------------------------------------------
  // No NAK is lost
  // ---------------------------------------------------------------------------------------

  function TotalNaks(summaries: seq<Summary>): nat {
    if summaries == [] then 0
    else TotalNaks(summaries[..|summaries| - 1]) + summaries[|summaries| - 1].naks
  }

  function AllNaks(events: seq<Event>): nat {
    IntervalValid(events);
    Naks(events, Interval(0, |events|))
  }

  lemma IntervalValid(events: seq<Event>)
    ensures Valid(events, Interval(0, |events|))
  {
  }

  /** Events `from` up to `to` begin with a start and reach up to the next start, behind the next
      stop, or to the end. */
  ghost predicate Whole(events: seq<Event>, from: int, to: int) {
    Uninterrupted(events, from, to) && (to == |events| || Ended(events, from, to))
  }

  /** Event `i` lies in these events, the last address among which is known. */
  ghost predicate AddressedWithin(events: seq<Event>, from: int, to: int, i: int) {
    Whole(events, from, to) && from <= i < to && LastAddress(events[from..to]).Some?
  }

  /** The event lies in a transaction with a known address: a condition on the events alone. */
  ghost predicate Counted(events: seq<Event>, i: int) {
    exists from, to :: AddressedWithin(events, from, to, i)
  }

  /** A transaction is determined by where it begins. */
  lemma WholeIsUnique(events: seq<Event>, from: int, to: int, to': int)
    requires Whole(events, from, to) && Whole(events, from, to')
    ensures to == to'
  {
  }

  lemma {:induction false} CountedExactly(events: seq<Event>, i: int)
    ensures Counted(events, i) <==> exists k :: CountedIn(events, k, i)
  {
    hide Spans, Starts, InSpan, LastAddress, Counted;
    if Counted(events, i) {
      var k := SpanOfCounted(events, i);
    }
    if k :| CountedIn(events, k, i) {
      InSpanIsCounted(events, k, i);
    }
  }

  lemma {:induction false} InSpanIsCounted(events: seq<Event>, k: int, i: int)
    requires CountedIn(events, k, i)
    ensures Counted(events, i)
  {
    hide Spans, Starts, InSpan, LastAddress;
    var from, to := SpanBounds(events, k, i);
    assert AddressedWithin(events, from, to, i);
  }

  lemma {:induction false} SpanOfCounted(events: seq<Event>, i: int) returns (k: int)
    requires Counted(events, i)
    ensures CountedIn(events, k, i)
  {
    hide Spans, Starts, InSpan, LastAddress;
    var from, to :| AddressedWithin(events, from, to, i);
    StartsExact(events, from);
    k :| 0 <= k < |Starts(events)| && Starts(events)[k] == from;
    SpansAreTransactions(events);
    var from', to' := SpanBounds(events, k, i);
    WholeIsUnique(events, from, to, to');
  }

  /** The event lies in a span that has an address. */
  ghost predicate CountedIn(events: seq<Event>, k: int, i: int) {
    0 <= k < |Spans(events)| && Spans(events)[k].address.Some? && InSpan(events, k, i)
  }

  function WithAddress(spans: seq<Span>): seq<Span> {
    if spans == [] then []
    else
      var n := |spans| - 1;
      WithAddress(spans[..n]) + (if spans[n].address.Some? then [spans[n]] else [])
  }

  lemma {:induction false} NaksConcat(events: seq<Event>, a: seq<int>, b: seq<int>)
    requires Valid(events, a) && Valid(events, b)
    ensures Valid(events, a + b)
    ensures Naks(events, a + b) == Naks(events, a) + Naks(events, b)
  {
    if b == [] {
      assert a + b == a;
    } else {
      var n := |b| - 1;
      assert (a + b)[..|a + b| - 1] == a + b[..n];
      NaksConcat(events, a, b[..n]);
    }
  }

  function GroupNaks(events: seq<Event>, groups: seq<Group>): nat
    requires AllValid(events, groups)
  {
    if groups == [] then 0
    else
      var n := |groups| - 1;
      assert groups[n] == groups[..|groups|][n];
      GroupNaks(events, groups[..n]) + Naks(events, Flat(groups[n].spans))
  }

  lemma {:induction false} TotalIsGroupNaks(events: seq<Event>, groups: seq<Group>)
    requires AllValid(events, groups)
    ensures TotalNaks(SummariesOf(events, groups)) == GroupNaks(events, groups)
  {
    hide Valid, Naks, Flat, Sorted;
    if groups != [] {
      var n := |groups| - 1;
      TotalIsGroupNaks(events, groups[..n]);
      assert SummariesOf(events, groups)[..n] == SummariesOf(events, groups[..n]);
      assert SummariesOf(events, groups)[n] == SummaryOf(events, groups[n]);
    }
  }

  lemma {:induction false} LongerGroup(events: seq<Event>, group: Group, span: Span)
    requires Valid(events, Flat(group.spans)) && Valid(events, span.indices)
    ensures Valid(events, Flat(group.spans + [span]))
    ensures Naks(events, Flat(group.spans + [span])) == Naks(events, Flat(group.spans)) + Naks(events, span.indices)
  {
    hide Naks;
    FlatSnoc(group.spans, span);
    NaksConcat(events, Flat(group.spans), span.indices);
  }

  lemma {:induction false} UpdateNaks(events: seq<Event>, groups: seq<Group>, p: int, longer: Group, more: nat)
    requires AllValid(events, groups) && 0 <= p < |groups|
    requires Valid(events, Flat(longer.spans))
    requires Naks(events, Flat(longer.spans)) == Naks(events, Flat(groups[p].spans)) + more
    ensures AllValid(events, groups[p := longer])
    ensures GroupNaks(events, groups[p := longer]) == GroupNaks(events, groups) + more
  {
    hide Valid, Naks, Flat;
    var n := |groups| - 1;
    if p == n {
      assert groups[p := longer][..n] == groups[..n];
    } else {
      UpdateNaks(events, groups[..n], p, longer, more);
      assert groups[p := longer][..n] == groups[..n][p := longer];
    }
  }

  lemma {:induction false} AppendNaks(events: seq<Event>, groups: seq<Group>, group: Group)
    requires AllValid(events, groups) && Valid(events, Flat(group.spans))
    ensures AllValid(events, groups + [group])
    ensures GroupNaks(events, groups + [group]) == GroupNaks(events, groups) + Naks(events, Flat(group.spans))
  {
    hide Valid, Naks, Flat;
    assert (groups + [group])[..|groups|] == groups;
  }

  lemma {:induction false} AddNaks(events: seq<Event>, groups: seq<Group>, address: int, span: Span)
    requires AllValid(events, groups) && Valid(events, span.indices)
    ensures AllValid(events, Add(groups, address, span))
    ensures GroupNaks(events, Add(groups, address, span)) == GroupNaks(events, groups) + Naks(events, span.indices)
  {
    hide Valid, Naks, Flat, Find, GroupNaks;
    var p := Find(groups, address);
    if p < |groups| {
      LongerGroup(events, groups[p], span);
      UpdateNaks(events, groups, p, Group(address, groups[p].spans + [span]), Naks(events, span.indices));
    } else {
      NothingFlat(events);
      LongerGroup(events, Group(address, []), span);
      assert [] + [span] == [span];
      AppendNaks(events, groups, Group(address, [span]));
    }
  }

  lemma {:induction false} NothingFlat(events: seq<Event>)
    ensures Flat([]) == [] && Valid(events, []) && Naks(events, []) == 0
  {
  }

  /** Grouping neither loses nor invents a NAK. */
  lemma {:induction false} GroupingConserves(events: seq<Event>, spans: seq<Span>)
    requires Chained(events, spans)
    ensures AllValid(events, Grouped(spans))
    ensures Valid(events, Flat(WithAddress(spans)))
    ensures GroupNaks(events, Grouped(spans)) == Naks(events, Flat(WithAddress(spans)))
  {
    hide Valid, Naks, Flat, Add;
    if spans == [] {
      NothingFlat(events);
    } else {
      var n := |spans| - 1;
      GroupingConserves(events, spans[..n]);
      var front := WithAddress(spans[..n]);
      if spans[n].address.Some? {
        AddNaks(events, Grouped(spans[..n]), spans[n].address.value, spans[n]);
        LongerGroup(events, Group(0, front), spans[n]);
      } else {
        assert front + [] == front;
      }
    }
  }

  /** Among the indices below `n`, an increasing list holds as many NAKs as there are exactly
      when it misses none. */
  lemma {:induction false} NaksOfPart(events: seq<Event>, indices: seq<int>, n: int)
    requires 0 <= n <= |events| && StrictlyIncreasing(indices)
    requires forall i :: 0 <= i < |indices| ==> 0 <= indices[i] < n
    ensures Valid(events, indices) && Valid(events, Interval(0, n))
    ensures Naks(events, indices) <= Naks(events, Interval(0, n))
    ensures Naks(events, indices) == Naks(events, Interval(0, n))
       <==> forall i :: 0 <= i < n && events[i].kind == I2cNak ==> i in indices
  {
    hide Naks;
    if n == 0 {
      NothingFlat(events);
    } else {
      NaksStep(events, Interval(0, n));
      assert Interval(0, n)[..n - 1] == Interval(0, n - 1);
      if indices != [] && indices[|indices| - 1] == n - 1 {
        var front := indices[..|indices| - 1];
        NaksOfPart(events, front, n - 1);
        NaksStep(events, indices);
        assert indices == front + [n - 1];
      } else {
        NaksOfPart(events, indices, n - 1);
        assert n - 1 !in indices;
      }
    }
  }

  lemma {:induction false} NaksStep(events: seq<Event>, indices: seq<int>)
    requires indices != [] && Valid(events, indices)
    ensures var n := |indices| - 1;
      && Valid(events, indices[..n])
      && Naks(events, indices) == Naks(events, indices[..n]) + (if events[indices[n]].kind == I2cNak then 1 else 0)
  {
  }

  lemma {:induction false} WithAddressStep(spans: seq<Span>)
    requires spans != []
    ensures var n := |spans| - 1;
      WithAddress(spans) == WithAddress(spans[..n]) + (if spans[n].address.Some? then [spans[n]] else [])
  {
  }

  lemma {:induction false} WithAddressIncrease(events: seq<Event>, n: int, bound: int)
    requires 0 <= n <= |Spans(events)|
    requires |Starts(events)| == |Spans(events)|
    requires if n < |Spans(events)| then bound == Starts(events)[n] else bound == |events|
    ensures var flat := Flat(WithAddress(Spans(events)[..n]));
      StrictlyIncreasing(flat) && forall i :: 0 <= i < |flat| ==> 0 <= flat[i] < bound
  {
    hide Spans, Starts, LastAddress, InSpan, WithAddress, Flat;
    var spans := Spans(events);
    if n == 0 {
      NoneWithAddress(spans[..0]);
    } else {
      WithAddressIncrease(events, n - 1, Starts(events)[n - 1]);
      assert spans[..n][..n - 1] == spans[..n - 1];
      WithAddressStep(spans[..n]);
      StartBefore(events, n, bound);
      StartsInRange(events);
      if spans[n - 1].address.Some? {
        FlatSnoc(WithAddress(spans[..n - 1]), spans[n - 1]);
        SpanEndsBefore(events, n - 1, bound);
        IncreasingConcat(Flat(WithAddress(spans[..n - 1])), spans[n - 1].indices, Starts(events)[n - 1]);
      } else {
        assert WithAddress(spans[..n - 1]) + [] == WithAddress(spans[..n - 1]);
      }
    }
  }

  lemma {:induction false} NoneWithAddress(spans: seq<Span>)
    requires spans == []
    ensures Flat(WithAddress(spans)) == []
  {
  }

  lemma {:induction false} FlatMembers(spans: seq<Span>, i: int)
    ensures i in Flat(WithAddress(spans))
       <==> exists k :: 0 <= k < |spans| && spans[k].address.Some? && i in spans[k].indices
  {
    if spans != [] {
      var n := |spans| - 1;
      FlatMembers(spans[..n], i);
      WithAddressStep(spans);
      if spans[n].address.Some? {
        FlatSnoc(WithAddress(spans[..n]), spans[n]);
      }
      assert WithAddress(spans[..n]) + [] == WithAddress(spans[..n]);
      if k :| 0 <= k < n && spans[k].address.Some? && i in spans[k].indices {
        assert spans[..n][k] == spans[k];
      }
    }
  }

  lemma {:induction false} CountedMembers(events: seq<Event>, i: int)
    ensures i in Flat(WithAddress(Spans(events))) <==> Counted(events, i)
  {
    hide Spans, Flat, WithAddress, Counted;
    CountedExactly(events, i);
    FlatMembers(Spans(events), i);
    if k :| 0 <= k < |Spans(events)| && Spans(events)[k].address.Some? && i in Spans(events)[k].indices {
      assert CountedIn(events, k, i);
    }
  }

  ghost predicate EveryNakCounted(events: seq<Event>) {
    forall i :: 0 <= i < |events| && events[i].kind == I2cNak ==> Counted(events, i)
  }

  /** The summaries never count a NAK twice, and together they count every NAK exactly when each
      lies in a transaction with a known address. */
  lemma {:induction false} NaksConservedExactly(events: seq<Event>)
    ensures TotalNaks(Summaries(events)) <= AllNaks(events)
    ensures TotalNaks(Summaries(events)) == AllNaks(events) <==> EveryNakCounted(events)
  {
    hide Spans, Starts, Flat, WithAddress, Grouped, Naks, Counted, GroupNaks, TotalNaks, SummariesOf,
      StrictlyIncreasing;
    var spans := Spans(events);
    GroupsAreValid(events);
    TotalIsGroupNaks(events, Grouped(spans));
    forall k | 0 <= k < |spans| ensures Valid(events, spans[k].indices) {
      SpanIsValid(events, k);
    }
    GroupingConserves(events, spans);
    SpansAreTransactions(events);
    WithAddressIncrease(events, |spans|, |events|);
    assert spans[..|spans|] == spans;
    NaksOfPart(events, Flat(WithAddress(spans)), |events|);
    forall i ensures i in Flat(WithAddress(spans)) <==> Counted(events, i) {
      CountedMembers(events, i);
    }
  }

  // --- what the orphan check guarantees

  /** Every address event carries an address and lies in an open span. */
  ghost predicate AddressesPlaced(events: seq<Event>) {
    forall i :: 0 <= i < |events| && events[i].kind == I2cAddress ==>
      events[i].address.Some? && Covered(events, i)
  }

  lemma {:induction false} NoOrphansAddressed(events: seq<Event>, channel: string, i: int)
    requires Smoke.Orphans(events, channel) == []
    requires 0 <= i < |events| && Smoke.NeedsAddress(events[i].kind)
    ensures Smoke.Addressed(events[..i])
  {
    var n := |events| - 1;
    if i < n {
      NoOrphansAddressed(events[..n], channel, i);
      assert events[..n][..i] == events[..i];
    }
  }

  lemma {:induction false} AddressedBy(events: seq<Event>, n: int) returns (j: int)
    requires 0 <= n <= |events| && Smoke.Addressed(events[..n])
    ensures 0 <= j < n && events[j].kind == I2cAddress
    ensures forall k :: j < k < n ==> events[k].kind != I2cStart && events[k].kind != I2cStop
  {
    assert events[..n][..n - 1] == events[..n - 1];
    if events[n - 1].kind == I2cAddress {
      j := n - 1;
    } else {
      j := AddressedBy(events, n - 1);
    }
  }

  lemma {:induction false} LastAddressSome(events: seq<Event>, j: int)
    requires 0 <= j < |events| && events[j].kind == I2cAddress
    requires forall k :: 0 <= k < |events| && events[k].kind == I2cAddress ==> events[k].address.Some?
    ensures LastAddress(events).Some?
  {
    var n := |events| - 1;
    if events[n].kind != I2cAddress {
      LastAddressSome(events[..n], j);
    }
  }

  /** The span around a well placed address event has an address. */
  lemma {:induction false} SpanHasAddress(events: seq<Event>, j: int, k: int)
    requires AddressesPlaced(events) && 0 <= j < |events| && events[j].kind == I2cAddress
    requires 0 <= k < |Spans(events)| && InSpan(events, k, j)
    ensures Spans(events)[k].address.Some?
  {
    hide Spans, Starts, InSpan, Covered, LastAddress;
    var from, to := SpanBounds(events, k, j);
    assert events[from..to][j - from] == events[j];
    LastAddressSome(events[from..to], j - from);
  }

  /** If the orphan check is silent and every address event is well placed, no NAK is lost. */
  lemma {:induction false} SilentOrphansConserveNaks(events: seq<Event>, channel: string)
    requires Smoke.Orphans(events, channel) == [] && AddressesPlaced(events)
    ensures TotalNaks(Summaries(events)) == AllNaks(events)
  {
    hide Smoke.Orphans, TotalNaks, Summaries, AllNaks, AddressesPlaced, Counted;
    NaksConservedExactly(events);
    forall i | 0 <= i < |events| && events[i].kind == I2cNak ensures Counted(events, i) {
      NakIsCounted(events, channel, i);
    }
  }

  lemma {:induction false} NakIsCounted(events: seq<Event>, channel: string, i: int)
    requires Smoke.Orphans(events, channel) == [] && AddressesPlaced(events)
    requires 0 <= i < |events| && events[i].kind == I2cNak
    ensures Counted(events, i)
  {
    hide Smoke.Orphans, Smoke.Addressed, Spans, Starts, InSpan, LastAddress;
    NoOrphansAddressed(events, channel, i);
    var j := AddressedBy(events, i);
    assert Covered(events, j);
    var k := SpanOf(events, j);
    SpanHasAddress(events, j, k);
    SameSpan(events, j, i, k);
    InSpanIsCounted(events, k, i);
  }

  /** Events behind one of a span belong to it until a start or a stop intervenes. */
  lemma {:induction false} SameSpan(events: seq<Event>, j: int, i: int, k: int)
    requires 0 <= j < i < |events| && 0 <= k < |Spans(events)| && InSpan(events, k, j)
    requires events[j].kind != I2cStop && events[i].kind != I2cStart
    requires forall m :: j < m < i ==> events[m].kind != I2cStart && events[m].kind != I2cStop
    ensures InSpan(events, k, i)
  {
    hide Spans, Starts, InSpan, LastAddress;
    var from, to := SpanBounds(events, k, j);
    var from', to' := SpanBounds(events, k, i);
    SameEnd(events, k, from, to, to');
  }

  lemma {:induction false} SameEnd(events: seq<Event>, k: int, from: int, to: int, to': int)
    requires 0 <= k < |Spans(events)|
    requires Spanning(events, Spans(events)[k], from, to) && Spanning(events, Spans(events)[k], from, to')
    ensures to == to'
  {
    hide Spans, LastAddress;
    assert |Interval(from, to)| == to - from;
    assert |Interval(from, to')| == to' - from;
  }

  /** Without the second condition a NAK can vanish from the summaries although the orphan check
      is silent: an address seen before any start. */
  lemma {:induction false} SilentOrphansCanLoseNaks(channel: string, address: int)
    ensures exists events ::
      Smoke.Orphans(events, channel) == [] && TotalNaks(Summaries(events)) < AllNaks(events)
  {
    var a := Event(I2cAddress, 0, 0, false, Some(address));
    var b := Event(I2cNak, 1, 1, false, None);
    var events := [a, b];
    assert events[..1] == [a] && [a][..0] == [];
    assert Smoke.Orphans([a], channel) == [] && Smoke.Addressed([a]);
    assert Smoke.Orphans(events, channel) == [];
    assert !Covered(events, 1);
    NotCountedUncovered(events, 1);
    NaksConservedExactly(events);
  }

  lemma {:induction false} NotCountedUncovered(events: seq<Event>, i: int)
    requires !Covered(events, i)
    ensures !Counted(events, i)
  {
    hide Spans, Covered, Counted;
    CoveredExactly(events, i);
    CountedExactly(events, i);
  }
}
