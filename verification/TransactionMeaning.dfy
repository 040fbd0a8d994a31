/** What each I2C transaction summary (src/slidko/narrate/transaction_summary.py) says about the
    event stream, without spans or groups. */
module TransactionMeaning {
  import opened Numbers
  import opened Results
  import opened Events
  import opened Sorting
  import opened Transactions

  /** A whole transaction that begins at `from` and whose last address is this one. */
  ghost predicate Begins(events: seq<Event>, from: int, address: int) {
    exists to :: IsTo(events, from, to, address)
  }

  ghost predicate IsTo(events: seq<Event>, from: int, to: int, address: int) {
    Whole(events, from, to) && LastAddress(events[from..to]) == Some(address)
  }

  /** The event lies in a transaction to this address. */
  ghost predicate Contributes(events: seq<Event>, i: int, address: int) {
    exists from, to :: IsTo(events, from, to, address) && from <= i < to
  }

  ghost function BeginningsTo(events: seq<Event>, address: int): set<int> {
    set from | 0 <= from < |events| && Begins(events, from, address)
  }

  // ---------------------------------------------------------------------------------------
  // Spans and transactions
  // ---------------------------------------------------------------------------------------

  /** Span `k` is the transaction that begins at start `k`. */
  lemma {:induction false} SpanIsTo(events: seq<Event>, k: int) returns (to: int)
    requires 0 <= k < |Spans(events)|
    ensures |Starts(events)| == |Spans(events)|
    ensures var from := Starts(events)[k];
      && Whole(events, from, to) && Spans(events)[k].address == LastAddress(events[from..to])
      && Spans(events)[k].indices == Interval(from, to)
  {
    hide Spans, Starts, LastAddress, InSpan;
    var from, end := SpanBounds(events, k, 0);
    to := end;
  }

  lemma {:induction false} SpanBeginning(events: seq<Event>, from: int) returns (k: int)
    requires 0 <= from < |events| && events[from].kind == I2cStart
    ensures |Starts(events)| == |Spans(events)| && 0 <= k < |Spans(events)| && Starts(events)[k] == from
  {
    hide Spans, Starts, IsTransaction;
    StartsExact(events, from);
    SpansAreTransactions(events);
    k :| 0 <= k < |Starts(events)| && Starts(events)[k] == from;
  }

  /** A start begins a transaction to an address exactly when its span has that address. */
  lemma {:induction false} BeginsExactly(events: seq<Event>, k: int, address: int)
    requires 0 <= k < |Spans(events)|
    ensures |Starts(events)| == |Spans(events)|
    ensures Begins(events, Starts(events)[k], address) <==> Spans(events)[k].address == Some(address)
  {
    hide Spans, Starts, LastAddress, Whole;
    var to := SpanIsTo(events, k);
    var from := Starts(events)[k];
    if end :| IsTo(events, from, end, address) {
      WholeIsUnique(events, from, end, to);
    }
    if Spans(events)[k].address == Some(address) {
      assert IsTo(events, from, to, address);
    }
  }

  // ---------------------------------------------------------------------------------------
  // Counting transactions
  // ---------------------------------------------------------------------------------------

  ghost function Hits(spans: seq<Span>, starts: seq<int>, n: nat, address: int): set<int>
    requires n <= |spans| == |starts|
  {
    set k | 0 <= k < n && spans[k].address == Some(address) :: starts[k]
  }

  lemma {:induction false} CountsHits(spans: seq<Span>, starts: seq<int>, n: nat, address: int)
    requires n <= |spans| == |starts| && forall j, k :: 0 <= j < k < |starts| ==> starts[j] < starts[k]
    ensures |SpansTo(spans[..n], address)| == |Hits(spans, starts, n, address)|
  {
    if n > 0 {
      assert spans[..n][..n - 1] == spans[..n - 1];
      CountsHits(spans, starts, n - 1, address);
      var before := Hits(spans, starts, n - 1, address);
      if spans[n - 1].address == Some(address) {
        assert Hits(spans, starts, n, address) == before + {starts[n - 1]};
        assert starts[n - 1] !in before;
      } else {
        assert Hits(spans, starts, n, address) == before;
      }
    }
  }

  lemma {:induction false} CountsBeginnings(events: seq<Event>, address: int)
    ensures |SpansTo(Spans(events), address)| == |BeginningsTo(events, address)|
  {
    hide Spans, Starts, SpansTo, Begins, IsTransaction;
    var spans, starts := Spans(events), Starts(events);
    SpansAreTransactions(events);
    StartsExact(events, 0);
    StartsInRange(events);
    CountsHits(spans, starts, |spans|, address);
    assert spans[..|spans|] == spans;
    forall from ensures from in Hits(spans, starts, |spans|, address) <==> from in BeginningsTo(events, address) {
      if from in BeginningsTo(events, address) {
        BeginsAtStart(events, from, address);
        var k := SpanBeginning(events, from);
        BeginsExactly(events, k, address);
      }
      if k :| 0 <= k < |spans| && spans[k].address == Some(address) && starts[k] == from {
        BeginsExactly(events, k, address);
      }
    }
    assert Hits(spans, starts, |spans|, address) == BeginningsTo(events, address);
  }

  lemma BeginsAtStart(events: seq<Event>, from: int, address: int)
    requires Begins(events, from, address)
    ensures 0 <= from < |events| && events[from].kind == I2cStart
  {
    hide LastAddress;
  }

  // ---------------------------------------------------------------------------------------
  // Evidence
  // ---------------------------------------------------------------------------------------

  lemma {:induction false} FlatOf(spans: seq<Span>, address: int, i: int)
    ensures i in Flat(SpansTo(spans, address))
       <==> exists k :: 0 <= k < |spans| && spans[k].address == Some(address) && i in spans[k].indices
  {
    if spans != [] {
      var n := |spans| - 1;
      FlatOf(spans[..n], address, i);
      assert forall k :: 0 <= k < n ==> spans[..n][k] == spans[k];
      var before := SpansTo(spans[..n], address);
      if spans[n].address == Some(address) {
        FlatSnoc(before, spans[n]);
      } else {
        assert before + [] == before;
      }
    }
  }

  lemma {:induction false} EvidenceOf(events: seq<Event>, address: int, i: int)
    ensures i in Flat(SpansTo(Spans(events), address)) <==> Contributes(events, i, address)
  {
    hide Spans, Starts, Flat, SpansTo, LastAddress, Whole, Interval;
    var spans := Spans(events);
    FlatOf(spans, address, i);
    if k :| 0 <= k < |spans| && spans[k].address == Some(address) && i in spans[k].indices {
      var to := SpanIsTo(events, k);
      WholeRange(events, Starts(events)[k], to);
      IntervalMembers(Starts(events)[k], to, i);
      assert IsTo(events, Starts(events)[k], to, address);
    }
    if from, to :| IsTo(events, from, to, address) && from <= i < to {
      WholeRange(events, from, to);
      var k := SpanBeginning(events, from);
      var end := SpanIsTo(events, k);
      WholeIsUnique(events, from, to, end);
      IntervalMembers(from, to, i);
    }
  }

  lemma WholeRange(events: seq<Event>, from: int, to: int)
    requires Whole(events, from, to)
    ensures 0 <= from < to <= |events| && events[from].kind == I2cStart
  {
  }

  ghost function NaksAmong(events: seq<Event>, indices: seq<int>): set<int> {
    set i | i in indices && 0 <= i < |events| && events[i].kind == I2cNak
  }

  lemma {:induction false} CountsNaks(events: seq<Event>, indices: seq<int>)
    requires Valid(events, indices) && StrictlyIncreasing(indices)
    ensures Naks(events, indices) == |NaksAmong(events, indices)|
  {
    hide NaksAmong;
    if indices == [] {
      NoNaks(events, indices);
    } else {
      CountsNaks(events, indices[..|indices| - 1]);
      NaksStep(events, indices);
    }
  }

  lemma NoNaks(events: seq<Event>, indices: seq<int>)
    requires indices == []
    ensures NaksAmong(events, indices) == {}
  {
  }

  lemma NaksStep(events: seq<Event>, indices: seq<int>)
    requires indices != [] && StrictlyIncreasing(indices) && Valid(events, indices)
    ensures var last := indices[|indices| - 1];
      |NaksAmong(events, indices)|
      == |NaksAmong(events, indices[..|indices| - 1])| + (if events[last].kind == I2cNak then 1 else 0)
  {
    var front, last := indices[..|indices| - 1], indices[|indices| - 1];
    var before := NaksAmong(events, front);
    assert indices == front + [last];
    assert last !in front;
    if events[last].kind == I2cNak {
      assert NaksAmong(events, indices) == before + {last};
    } else {
      assert NaksAmong(events, indices) == before;
    }
  }

  // ---------------------------------------------------------------------------------------
  // The order of the summaries
  // ---------------------------------------------------------------------------------------

  /** The position of the first span to an address, or the number of spans. */
  function FirstTo(spans: seq<Span>, address: int): nat {
    if spans == [] then 0
    else
      var n := |spans| - 1;
      var before := FirstTo(spans[..n], address);
      if before < n || spans[n].address == Some(address) then before else n + 1
  }

  lemma {:induction false} FirstToIs(spans: seq<Span>, address: int)
    ensures var k := FirstTo(spans, address);
      && k <= |spans|
      && (forall j :: 0 <= j < k ==> spans[j].address != Some(address))
      && (k < |spans| ==> spans[k].address == Some(address))
    ensures FirstTo(spans, address) < |spans| <==> SpansTo(spans, address) != []
    ensures SpansTo(spans, address) != [] ==> SpansTo(spans, address)[0] == spans[FirstTo(spans, address)]
  {
    if spans != [] {
      var n := |spans| - 1;
      FirstToIs(spans[..n], address);
    }
  }

  ghost predicate InFirstOrder(groups: seq<Group>, spans: seq<Span>) {
    forall p, q :: 0 <= p < q < |groups| ==> FirstTo(spans, groups[p].address) < FirstTo(spans, groups[q].address)
  }

  lemma {:induction false} GroupsInOrder(spans: seq<Span>)
    ensures InFirstOrder(Grouped(spans), spans)
  {
    hide FirstTo, SpansTo, Find;
    if spans != [] {
      var n := |spans| - 1;
      var front, groups := spans[..n], Grouped(spans[..n]);
      GroupsInOrder(front);
      GroupsExactly(front);
      forall address ensures FirstTo(spans, address)
           == if FirstTo(front, address) < n || spans[n].address == Some(address) then FirstTo(front, address)
              else n + 1
      {
        FirstToStep(spans, address);
      }
      forall p | 0 <= p < |groups| ensures FirstTo(front, groups[p].address) < n {
        FirstToIs(front, groups[p].address);
        GroupNotEmpty(front, p);
      }
      if spans[n].address.Some? {
        var address := spans[n].address.value;
        FirstToIs(front, address);
        FirstToIs(spans, address);
        OrderKept(groups, front, spans, address);
      }
    }
  }

  lemma FirstToStep(spans: seq<Span>, address: int)
    requires spans != []
    ensures var n := |spans| - 1;
      FirstTo(spans, address)
      == if FirstTo(spans[..n], address) < n || spans[n].address == Some(address) then FirstTo(spans[..n], address)
         else n + 1
  {
  }

  lemma {:induction false} GroupNotEmpty(spans: seq<Span>, p: int)
    requires 0 <= p < |Grouped(spans)|
    ensures SpansTo(spans, Grouped(spans)[p].address) != []
  {
    GroupsExactly(spans);
    SpansNotEmpty(spans, p);
  }

  lemma {:induction false} SpansNotEmpty(spans: seq<Span>, p: int)
    requires 0 <= p < |Grouped(spans)|
    ensures Grouped(spans)[p].spans != []
  {
    var n := |spans| - 1;
    if spans[n].address.None? {
      SpansNotEmpty(spans[..n], p);
    } else if p < |Grouped(spans[..n])| {
      SpansNotEmpty(spans[..n], p);
    }
  }

  lemma {:induction false} OrderKept(groups: seq<Group>, front: seq<Span>, spans: seq<Span>, address: int)
    requires spans != [] && front == spans[..|spans| - 1] && InFirstOrder(groups, front)
    requires spans[|spans| - 1].address == Some(address)
    requires forall p :: 0 <= p < |groups| ==> FirstTo(front, groups[p].address) < |front|
    requires forall a ::
      FirstTo(spans, a) == if FirstTo(front, a) < |front| || a == address then FirstTo(front, a) else |front| + 1
    requires FirstTo(front, address) <= |front|
    requires FirstTo(front, address) < |front| ==> exists p :: 0 <= p < |groups| && groups[p].address == address
    ensures InFirstOrder(Add(groups, address, spans[|spans| - 1]), spans)
  {
    hide FirstTo, Find;
    var p := Find(groups, address);
    var all := Add(groups, address, spans[|spans| - 1]);
    assert forall q :: 0 <= q < |groups| ==> all[q].address == groups[q].address;
  }

  // ---------------------------------------------------------------------------------------
  // The summaries
  // ---------------------------------------------------------------------------------------

  /** One summary, over the events alone. */
  ghost predicate Describes(events: seq<Event>, summary: Summary) {
    && StrictlyIncreasing(summary.evidence)
    && (forall i :: i in summary.evidence <==> Contributes(events, i, summary.address))
    && summary.transactions == |BeginningsTo(events, summary.address)|
    && summary.naks == |NaksAmong(events, summary.evidence)|
  }

  lemma {:induction false} SummaryDescribes(events: seq<Event>, p: int)
    requires 0 <= p < |Summaries(events)|
    ensures Describes(events, Summaries(events)[p])
  {
    hide Spans, Grouped, SpansTo, Starts, Flat, Sorted, StrictlyIncreasing, Naks, NaksAmong, Contributes, BeginningsTo;
    var summary := Summaries(events)[p];
    SummariesExactly(events, p);
    CountsBeginnings(events, summary.address);
    forall i ensures i in summary.evidence <==> Contributes(events, i, summary.address) {
      EvidenceOf(events, summary.address, i);
    }
    GroupsAreValid(events);
    GroupsExactly(Spans(events));
    CountsNaks(events, summary.evidence);
  }

  ghost predicate Seen(events: seq<Event>, address: int) {
    exists from :: Begins(events, from, address)
  }

  ghost predicate Summarized(summaries: seq<Summary>, address: int) {
    exists p :: 0 <= p < |summaries| && summaries[p].address == address
  }

  ghost predicate Earlier(a: Summary, b: Summary) {
    a.evidence != [] && b.evidence != [] && a.evidence[0] < b.evidence[0]
  }

  /** Every summary describes the transactions to its address: which events belong to them, how
      many there are, how many of the events are NAKs. Every address that ends up the last of some
      transaction has one, and they come in the order of the addresses' first transactions. */
  lemma {:induction false} SummariesDescribe(events: seq<Event>)
    ensures forall p :: 0 <= p < |Summaries(events)| ==> Describes(events, Summaries(events)[p])
    ensures forall address :: Seen(events, address) <==> Summarized(Summaries(events), address)
    ensures forall p, q :: 0 <= p < q < |Summaries(events)| ==> Earlier(Summaries(events)[p], Summaries(events)[q])
  {
    hide Summaries, Describes, Seen, Summarized, Earlier;
    forall p | 0 <= p < |Summaries(events)| ensures Describes(events, Summaries(events)[p]) {
      SummaryDescribes(events, p);
    }
    forall address ensures Seen(events, address) <==> Summarized(Summaries(events), address) {
      AddressesCovered(events, address);
    }
    forall p, q | 0 <= p < q < |Summaries(events)| ensures Earlier(Summaries(events)[p], Summaries(events)[q]) {
      SummariesInOrder(events, p, q);
    }
  }

  lemma {:induction false} AddressesCovered(events: seq<Event>, address: int)
    ensures Seen(events, address) <==> Summarized(Summaries(events), address)
  {
    hide Spans, Grouped, SpansTo, Starts, Flat, Sorted, Naks, Begins, FirstTo;
    var spans := Spans(events);
    GroupsAreValid(events);
    GroupsExactly(spans);
    FirstToIs(spans, address);
    if from :| Begins(events, from, address) {
      BeginsAtStart(events, from, address);
      var k := SpanBeginning(events, from);
      BeginsExactly(events, k, address);
      assert SpansTo(spans, address) != [];
      var p :| 0 <= p < |Grouped(spans)| && Grouped(spans)[p].address == address;
      assert Summaries(events)[p].address == address;
    }
    if p :| 0 <= p < |Summaries(events)| && Summaries(events)[p].address == address {
      GroupNotEmpty(spans, p);
      BeginsExactly(events, FirstTo(spans, address), address);
    }
  }

  lemma {:induction false} FirstEvidence(events: seq<Event>, p: int)
    requires 0 <= p < |Summaries(events)| && |Summaries(events)| == |Grouped(Spans(events))|
    requires Summaries(events)[p].address == Grouped(Spans(events))[p].address
    ensures var k := FirstTo(Spans(events), Summaries(events)[p].address);
      && k < |Spans(events)| == |Starts(events)|
      && Summaries(events)[p].evidence != [] && Summaries(events)[p].evidence[0] == Starts(events)[k]
  {
    hide Spans, Grouped, SpansTo, Starts, Flat, Sorted, Naks, Summaries, FirstTo, LastAddress;
    var spans, address := Spans(events), Summaries(events)[p].address;
    SummariesExactly(events, p);
    FirstToIs(spans, address);
    GroupNotEmpty(spans, p);
    var k := FirstTo(spans, address);
    var to := SpanIsTo(events, k);
    WholeRange(events, Starts(events)[k], to);
    assert spans[k].indices[0] == Starts(events)[k];
    FlatBegins(SpansTo(spans, address));
  }

  lemma {:induction false} FlatBegins(spans: seq<Span>)
    requires spans != [] && spans[0].indices != []
    ensures Flat(spans) != [] && Flat(spans)[0] == spans[0].indices[0]
  {
    if |spans| > 1 {
      FlatBegins(spans[..|spans| - 1]);
    } else {
      assert Flat(spans[..0]) == [];
    }
  }

  lemma {:induction false} SummariesInOrder(events: seq<Event>, p: int, q: int)
    requires 0 <= p < q < |Summaries(events)|
    ensures Earlier(Summaries(events)[p], Summaries(events)[q])
  {
    hide Spans, Grouped, SpansTo, Starts, Flat, Sorted, Naks, FirstTo;
    GroupsAreValid(events);
    GroupsInOrder(Spans(events));
    FirstEvidence(events, p);
    FirstEvidence(events, q);
    StartsExact(events, 0);
  }
}
