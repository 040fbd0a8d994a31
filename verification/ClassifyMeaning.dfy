/** What the classifier's choices mean (src/slidko/measure/classify.py, spi.py, i2c.py, edges.py):
    which groups are tried and in which order, which group each step takes, and which channel gets
    which role with what confidence, for every measure of periodicity. */
module ClassifyMeaning {
  import opened Numbers
  import opened Results
  import opened Signals
  import opened Captures
  import opened Classify
  import I2c
  import SpiInference

  // ---------------------------------------------------------------------------------------
  // The groups
  // ---------------------------------------------------------------------------------------

  /** `k` positions in increasing order. */
  ghost predicate IsPick(pick: seq<int>, k: nat, n: nat) {
    && |pick| == k
    && (forall i :: 0 <= i < k ==> 0 <= pick[i] < n)
    && forall i, j :: 0 <= i < j < k ==> pick[i] < pick[j]
  }

  ghost predicate Before(a: seq<int>, b: seq<int>) {
    exists i :: 0 <= i < |a| && i < |b| && a[..i] == b[..i] && a[i] < b[i]
  }

  /** The channels at these positions. */
  ghost function Picked(channels: seq<Channel>, pick: seq<int>): seq<Channel> {
    if exists i :: 0 <= i < |pick| && !(0 <= pick[i] < |channels|) then []
    else seq(|pick|, i requires 0 <= i < |pick| => channels[pick[i]])
  }

  function Shifted(pick: seq<int>): seq<int> {
    seq(|pick|, i requires 0 <= i < |pick| => pick[i] + 1)
  }

  function ShiftedAll(picks: seq<seq<int>>): seq<seq<int>> {
    seq(|picks|, p requires 0 <= p < |picks| => Shifted(picks[p]))
  }

  function WithFirst(picks: seq<seq<int>>): seq<seq<int>> {
    seq(|picks|, p requires 0 <= p < |picks| => [0] + Shifted(picks[p]))
  }

  /** The picks of `k` out of `n` positions, as the combinations list them. */
  function Picks(n: nat, k: nat): seq<seq<int>>
    decreases n
  {
    if k == 0 then [[]]
    else if n == 0 then []
    else WithFirst(Picks(n - 1, k - 1)) + ShiftedAll(Picks(n - 1, k))
  }

  lemma {:induction false} PicksAre(n: nat, k: nat)
    ensures forall p :: 0 <= p < |Picks(n, k)| ==> IsPick(Picks(n, k)[p], k, n)
    decreases n
  {
    if k > 0 && n > 0 {
      PicksAre(n - 1, k - 1);
      PicksAre(n - 1, k);
    }
  }

  lemma BeforeShifts(a: seq<int>, b: seq<int>)
    requires Before(a, b)
    ensures Before(Shifted(a), Shifted(b)) && Before([0] + Shifted(a), [0] + Shifted(b))
  {
    var i :| 0 <= i < |a| && i < |b| && a[..i] == b[..i] && a[i] < b[i];
    var x, y := [0] + Shifted(a), [0] + Shifted(b);
    assert forall j :: 0 <= j < i ==> a[j] == a[..i][j] && b[j] == b[..i][j];
    assert Shifted(a)[..i] == Shifted(b)[..i] && Shifted(a)[i] < Shifted(b)[i];
    assert x[..i + 1] == y[..i + 1] && x[i + 1] < y[i + 1];
  }

  ghost predicate InOrder(picks: seq<seq<int>>) {
    forall p, q :: 0 <= p < q < |picks| ==> Before(picks[p], picks[q])
  }

  lemma {:induction false} OrderShifts(picks: seq<seq<int>>)
    requires InOrder(picks)
    ensures InOrder(WithFirst(picks)) && InOrder(ShiftedAll(picks))
  {
    hide Before, Shifted;
    forall p, q | 0 <= p < q < |picks|
      ensures Before(WithFirst(picks)[p], WithFirst(picks)[q]) && Before(ShiftedAll(picks)[p], ShiftedAll(picks)[q])
    {
      BeforeShifts(picks[p], picks[q]);
    }
  }

  lemma ZeroBefore(a: seq<int>, b: seq<int>)
    requires b != [] && b[0] >= 0
    ensures Before([0] + a, Shifted(b))
  {
    var x, y := [0] + a, Shifted(b);
    assert x[..0] == y[..0] && x[0] < y[0];
  }

  /** They are in lexicographic order. */
  lemma {:induction false} PicksAscend(n: nat, k: nat)
    ensures InOrder(Picks(n, k))
    decreases n
  {
    hide Before, Shifted;
    if k > 0 && n > 0 {
      var firsts, others := Picks(n - 1, k - 1), Picks(n - 1, k);
      PicksAscend(n - 1, k - 1);
      PicksAscend(n - 1, k);
      OrderShifts(firsts);
      OrderShifts(others);
      PicksAre(n - 1, k);
      forall p, q | 0 <= p < |firsts| && 0 <= q < |others| ensures Before(WithFirst(firsts)[p], ShiftedAll(others)[q]) {
        assert IsPick(others[q], k, n - 1);
        ZeroBefore(Shifted(firsts[p]), others[q]);
      }
      OrderJoins(WithFirst(firsts), ShiftedAll(others));
    }
  }

  lemma OrderJoins(a: seq<seq<int>>, b: seq<seq<int>>)
    requires InOrder(a) && InOrder(b)
    requires forall p, q :: 0 <= p < |a| && 0 <= q < |b| ==> Before(a[p], b[q])
    ensures InOrder(a + b)
  {
    hide Before;
    forall p, q | 0 <= p < q < |a + b| ensures Before((a + b)[p], (a + b)[q]) {
      if p >= |a| {
        assert (a + b)[p] == b[p - |a|] && (a + b)[q] == b[q - |a|];
      } else if q >= |a| {
        assert (a + b)[q] == b[q - |a|];
      }
    }
  }

  lemma ShiftedIn(picks: seq<seq<int>>, pick: seq<int>)
    requires pick in picks
    ensures [0] + Shifted(pick) in WithFirst(picks) && Shifted(pick) in ShiftedAll(picks)
  {
    hide Shifted;
    var p :| 0 <= p < |picks| && picks[p] == pick;
    assert WithFirst(picks)[p] == [0] + Shifted(pick) && ShiftedAll(picks)[p] == Shifted(pick);
  }

  function Lowered(pick: seq<int>): seq<int> {
    seq(|pick|, i requires 0 <= i < |pick| => pick[i] - 1)
  }

  lemma LoweredIsPick(pick: seq<int>, k: nat, n: nat)
    requires IsPick(pick, k, n) && n >= 1 && (k > 0 ==> pick[0] >= 1)
    ensures IsPick(Lowered(pick), k, n - 1) && Shifted(Lowered(pick)) == pick
  {
  }

  lemma TailIsPick(pick: seq<int>, k: nat, n: nat)
    requires IsPick(pick, k, n) && k >= 1
    ensures IsPick(pick[1..], k - 1, n) && (k > 1 ==> pick[1..][0] > pick[0])
    ensures [pick[0]] + pick[1..] == pick
  {
  }

  /** And none is left out. */
  lemma {:induction false} PicksComplete(n: nat, k: nat, pick: seq<int>)
    requires IsPick(pick, k, n)
    ensures pick in Picks(n, k)
    decreases n
  {
    if k == 0 {
      assert pick == [];
    } else {
      assert 0 <= pick[0] < n;
      hide IsPick, Shifted, Lowered;
      if pick[0] == 0 {
        TailIsPick(pick, k, n);
        LoweredIsPick(pick[1..], k - 1, n);
        PicksComplete(n - 1, k - 1, Lowered(pick[1..]));
        ShiftedIn(Picks(n - 1, k - 1), Lowered(pick[1..]));
      } else {
        LoweredIsPick(pick, k, n);
        PicksComplete(n - 1, k, Lowered(pick));
        ShiftedIn(Picks(n - 1, k), Lowered(pick));
      }
    }
  }

  /** Every pick of `k` channels is a combination, in lexicographic order of their positions, and
      nothing else is. */
  ghost predicate Listed(channels: seq<Channel>, groups: seq<seq<Channel>>, picks: seq<seq<int>>, k: nat) {
    && |groups| == |picks|
    && forall p :: 0 <= p < |groups| ==> IsPick(picks[p], k, |channels|) && groups[p] == Picked(channels, picks[p])
  }

  lemma PickedAre(channels: seq<Channel>, pick: seq<int>, k: nat)
    requires IsPick(pick, k, |channels|)
    ensures |Picked(channels, pick)| == |pick| == k
    ensures forall i :: 0 <= i < k ==> 0 <= pick[i] < |channels| && Picked(channels, pick)[i] == channels[pick[i]]
  {
  }

  lemma ShiftedArePicks(pick: seq<int>, k: nat, n: nat)
    requires IsPick(pick, k, n)
    ensures IsPick(Shifted(pick), k, n + 1) && IsPick([0] + Shifted(pick), k + 1, n + 1)
  {
  }

  lemma PickedFirst(channels: seq<Channel>, pick: seq<int>, k: nat)
    requires channels != [] && IsPick(pick, k, |channels| - 1)
    ensures IsPick([0] + Shifted(pick), k + 1, |channels|)
    ensures Picked(channels, [0] + Shifted(pick)) == [channels[0]] + Picked(channels[1..], pick)
  {
    hide Picked, IsPick;
    ShiftedArePicks(pick, k, |channels| - 1);
    PickedAre(channels, [0] + Shifted(pick), k + 1);
    PickedAre(channels[1..], pick, k);
  }

  lemma PickedRest(channels: seq<Channel>, pick: seq<int>, k: nat)
    requires channels != [] && IsPick(pick, k, |channels| - 1)
    ensures IsPick(Shifted(pick), k, |channels|)
    ensures Picked(channels, Shifted(pick)) == Picked(channels[1..], pick)
  {
    hide Picked, IsPick;
    ShiftedArePicks(pick, k, |channels| - 1);
    PickedAre(channels, Shifted(pick), k);
    PickedAre(channels[1..], pick, k);
  }

  lemma {:induction false} ListedFirst(channels: seq<Channel>, groups: seq<seq<Channel>>, picks: seq<seq<int>>, k: nat)
    requires channels != [] && Listed(channels[1..], groups, picks, k)
    ensures Listed(channels, Prefixed(channels[0], groups), WithFirst(picks), k + 1)
  {
    hide IsPick, Shifted, Picked;
    forall p | 0 <= p < |groups|
      ensures IsPick([0] + Shifted(picks[p]), k + 1, |channels|)
      ensures [channels[0]] + groups[p] == Picked(channels, [0] + Shifted(picks[p]))
    {
      PickedFirst(channels, picks[p], k);
    }
  }

  lemma {:induction false} ListedRest(channels: seq<Channel>, groups: seq<seq<Channel>>, picks: seq<seq<int>>, k: nat)
    requires channels != [] && Listed(channels[1..], groups, picks, k)
    ensures Listed(channels, groups, ShiftedAll(picks), k)
  {
    hide IsPick, Shifted, Picked;
    forall p | 0 <= p < |groups|
      ensures IsPick(Shifted(picks[p]), k, |channels|) && groups[p] == Picked(channels, Shifted(picks[p]))
    {
      PickedRest(channels, picks[p], k);
    }
  }

  lemma ListedJoins(channels: seq<Channel>, g: seq<seq<Channel>>, p: seq<seq<int>>, h: seq<seq<Channel>>,
                    q: seq<seq<int>>,
                    k: nat)
    requires Listed(channels, g, p, k) && Listed(channels, h, q, k)
    ensures Listed(channels, g + h, p + q, k)
  {
    hide IsPick, Picked;
  }

  lemma {:induction false} CombinationsExactly(channels: seq<Channel>, k: nat)
    ensures Listed(channels, Combinations(channels, k), Picks(|channels|, k), k)
    decreases |channels|
  {
    hide IsPick, Picked, Listed;
    if k == 0 {
      NoPick(channels);
    } else if channels == [] {
      NoGroups(channels, k);
    } else {
      var rest := channels[1..];
      CombinationsExactly(rest, k - 1);
      CombinationsExactly(rest, k);
      ListedFirst(channels, Combinations(rest, k - 1), Picks(|rest|, k - 1), k - 1);
      ListedRest(channels, Combinations(rest, k), Picks(|rest|, k), k);
      ListedJoins(channels, Prefixed(channels[0], Combinations(rest, k - 1)), WithFirst(Picks(|rest|, k - 1)),
                  Combinations(rest, k), ShiftedAll(Picks(|rest|, k)), k);
    }
  }

  lemma NoPick(channels: seq<Channel>)
    ensures Listed(channels, [[]], [[]], 0)
  {
  }

  lemma NoGroups(channels: seq<Channel>, k: nat)
    ensures Listed(channels, [], [], k)
  {
  }

  // ---------------------------------------------------------------------------------------
  // The steps of a phase
  // ---------------------------------------------------------------------------------------

  /** The channels whose names are not among these, in their order. */
  function Left(channels: seq<Channel>, names: set<string>): seq<Channel> {
    if channels == [] then []
    else
      var n := |channels| - 1;
      Left(channels[..n], names) + (if channels[n].name in names then [] else [channels[n]])
  }

  lemma {:induction false} LeftCons(c: Channel, rest: seq<Channel>, names: set<string>)
    ensures Left([c] + rest, names) == (if c.name in names then [] else [c]) + Left(rest, names)
  {
    if rest == [] {
      assert [c] + rest == [c] && [c][..0] == [];
    } else {
      var n := |rest| - 1;
      assert ([c] + rest)[..|rest|] == [c] + rest[..n];
      LeftCons(c, rest[..n], names);
    }
  }

  lemma {:induction false} WithoutIsLeft(channels: seq<Channel>, group: seq<Channel>)
    ensures Without(channels, group) == Left(channels, Names(group))
  {
    hide Names;
    if channels != [] {
      assert channels == [channels[0]] + channels[1..];
      WithoutIsLeft(channels[1..], group);
      LeftCons(channels[0], channels[1..], Names(group));
    }
  }

  lemma {:induction false} LeftTwice(channels: seq<Channel>, a: set<string>, b: set<string>)
    ensures Left(Left(channels, a), b) == Left(channels, a + b)
  {
    if channels != [] {
      var n := |channels| - 1;
      LeftTwice(channels[..n], a, b);
      var before, last := Left(channels[..n], a), channels[n];
      if last.name in a {
        assert before + [] == before;
      } else {
        assert (before + [last])[..|before|] == before;
      }
    }
  }

  lemma {:induction false} LeftAll(channels: seq<Channel>)
    ensures Left(channels, {}) == channels
  {
    if channels != [] {
      LeftAll(channels[..|channels| - 1]);
    }
  }

  /** The names of the first groups. */
  function Taken(choices: seq<Choice>): set<string> {
    if choices == [] then {} else Taken(choices[..|choices| - 1]) + Names(choices[|choices| - 1].group)
  }

  lemma {:induction false} TakenCons(choice: Choice, later: seq<Choice>)
    ensures Taken([choice] + later) == Names(choice.group) + Taken(later)
  {
    hide Names;
    if later == [] {
      assert [choice] + later == [choice] && [choice][..0] == [];
    } else {
      var n := |later| - 1;
      assert ([choice] + later)[..|later|] == [choice] + later[..n];
      TakenCons(choice, later[..n]);
    }
  }

  /** Each step takes the best of all groups of `k` among the channels that the steps before it
      left; the phase leaves the others, among which no group scores any more. */
  ghost predicate Steps(channels: seq<Channel>, k: nat, score: Scorer, outcome: Outcome) {
    && outcome.rest == Left(channels, Taken(outcome.choices))
    && (|outcome.rest| < k || NoneClaimed(Combinations(outcome.rest, k), score))
    && forall i :: 0 <= i < |outcome.choices| ==> TakesBest(channels, k, score, outcome.choices, i)
  }

  ghost predicate TakesBest(channels: seq<Channel>, k: nat, score: Scorer, choices: seq<Choice>, i: nat)
    requires i < |choices|
  {
    exists p :: IsBest(Combinations(Left(channels, Taken(choices[..i])), k), score, choices[i], p)
  }

  lemma {:induction false} PhaseExactly(channels: seq<Channel>, k: nat, score: Scorer)
    requires k >= 1
    ensures Steps(channels, k, score, Greedy(channels, k, score))
    decreases |channels|
  {
    hide Combinations, Best, Without, Names, IsBest, NoneClaimed;
    LeftAll(channels);
    var best := Best(Combinations(channels, k), score);
    if |channels| >= k {
      var p := BestExactly(Combinations(channels, k), score);
      if best.Some? {
        ChoiceShrinks(channels, k, score);
        WithoutIsLeft(channels, best.value.group);
        PhaseExactly(Without(channels, best.value.group), k, score);
        StepsCons(channels, k, score, best.value, p, Greedy(Without(channels, best.value.group), k, score));
      }
    }
  }

  lemma {:induction false} StepsCons(channels: seq<Channel>, k: nat, score: Scorer, best: Choice, p: int,
                                     later: Outcome)
    requires IsBest(Combinations(channels, k), score, best, p)
    requires Steps(Left(channels, Names(best.group)), k, score, later)
    ensures Steps(channels, k, score, Outcome([best] + later.choices, later.rest))
  {
    hide Combinations, Names, IsBest, NoneClaimed, Taken, Left;
    var names, all := Names(best.group), [best] + later.choices;
    TakenCons(best, later.choices);
    LeftTwice(channels, names, Taken(later.choices));
    forall i | 0 <= i < |all| ensures TakesBest(channels, k, score, all, i) {
      if i == 0 {
        NothingTaken(channels, all);
        assert IsBest(Combinations(Left(channels, Taken(all[..0])), k), score, all[0], p);
      } else {
        assert all[..i] == [best] + later.choices[..i - 1] && all[i] == later.choices[i - 1];
        assert TakesBest(Left(channels, names), k, score, later.choices, i - 1);
        TakenCons(best, later.choices[..i - 1]);
        LeftTwice(channels, names, Taken(later.choices[..i - 1]));
      }
    }
  }

  lemma NothingTaken(channels: seq<Channel>, choices: seq<Choice>)
    ensures Left(channels, Taken(choices[..0])) == channels
  {
    LeftAll(channels);
  }

  /** The channels that are claimed alone, in their order. */
  function Claimed(channels: seq<Channel>, score: Scorer): seq<Channel> {
    if channels == [] then []
    else
      var last := channels[|channels| - 1];
      Claimed(channels[..|channels| - 1], score) + (if score([last]).Some? then [last] else [])
  }

  ghost predicate AreSingles(choices: seq<Choice>, channels: seq<Channel>, score: Scorer) {
    && |choices| == |channels|
    && forall i :: 0 <= i < |choices| ==>
         choices[i].group == [channels[i]] && score([channels[i]]) == Some(choices[i].claim)
  }

  lemma {:induction false} SinglesExactly(channels: seq<Channel>, score: Scorer)
    ensures AreSingles(Singles(channels, score), Claimed(channels, score), score)
  {
    if channels != [] {
      var n := |channels| - 1;
      SinglesExactly(channels[..n], score);
    }
  }

  /** Triples first, then pairs of what they leave, then single channels. */
  lemma {:induction false} ChoicesExactly(channels: seq<Channel>, triple: Scorer, pair: Scorer, single: Scorer)
    returns (triples: Outcome, pairs: Outcome)
    ensures Steps(channels, 3, triple, triples) && Steps(triples.rest, 2, pair, pairs)
    ensures Choices(channels, triple, pair, single) == triples.choices + pairs.choices + Singles(pairs.rest, single)
    ensures AreSingles(Singles(pairs.rest, single), Claimed(pairs.rest, single), single)
  {
    triples := Greedy(channels, 3, triple);
    pairs := Greedy(triples.rest, 2, pair);
    PhaseExactly(channels, 3, triple);
    PhaseExactly(triples.rest, 2, pair);
    SinglesExactly(pairs.rest, single);
  }

  // ---------------------------------------------------------------------------------------
  // The active window
  // ---------------------------------------------------------------------------------------

  ghost predicate Changes(a: seq<bool>, b: seq<bool>, i: int) {
    IsEdge(a, i) || IsEdge(b, i)
  }

  /** From the first level change of either channel to just behind the last one; without any, the
      whole of the first channel. */
  ghost predicate IsWindow(a: seq<bool>, b: seq<bool>, window: (int, int)) {
    if exists i :: Changes(a, b, i) then
      && Changes(a, b, window.0) && Changes(a, b, window.1 - 1)
      && forall i :: Changes(a, b, i) ==> window.0 <= i < window.1
    else window == (0, |a|)
  }

  lemma {:induction false} EdgeEnds(c: seq<bool>)
    ensures var edges := Edges(c);
      if edges == [] then forall i :: !IsEdge(c, i)
      else IsEdge(c, edges[0].index) && IsEdge(c, edges[|edges| - 1].index)
           && forall i :: IsEdge(c, i) ==> edges[0].index <= i <= edges[|edges| - 1].index
  {
    hide IsEdge;
    var edges := Edges(c);
    EdgesExact(c);
    if edges != [] {
      EdgeAt(c, edges, 0);
      EdgeAt(c, edges, |edges| - 1);
    }
    forall i | IsEdge(c, i) ensures edges != [] && edges[0].index <= i <= edges[|edges| - 1].index {
      var k := FindEdge(c, edges, i);
    }
  }

  lemma {:induction false} WindowExactly(a: seq<bool>, b: seq<bool>)
    ensures IsWindow(a, b, ActiveWindow(a, b))
  {
    hide Edges, IsEdge;
    EdgeEnds(a);
    EdgeEnds(b);
    var window := ActiveWindow(a, b);
    if Edges(a) != [] || Edges(b) != [] {
      assert Changes(a, b, window.0) && Changes(a, b, window.1 - 1);
      assert forall i :: Changes(a, b, i) ==> window.0 <= i < window.1;
    } else {
      assert !exists i :: Changes(a, b, i);
    }
  }

  lemma SameWindow(a: seq<bool>, b: seq<bool>, v: (int, int), w: (int, int))
    requires IsWindow(a, b, v) && IsWindow(a, b, w)
    ensures v == w
  {
    hide IsEdge;
  }

  /** A slice whose bounds may lie behind the end. */
  function Slice(c: seq<bool>, window: (int, int)): seq<bool>
    requires 0 <= window.0 <= window.1
  {
    if window.1 <= |c| then c[window.0..window.1] else if window.0 <= |c| then c[window.0..] else []
  }

  lemma ClipIsSlice(c: seq<bool>, window: (int, int))
    requires 0 <= window.0 <= window.1
    ensures Clip(c, window) == Slice(c, window)
  {
  }

  lemma WindowOrdered(a: seq<bool>, b: seq<bool>, window: (int, int))
    requires IsWindow(a, b, window)
    ensures 0 <= window.0 <= window.1
  {
  }

  // ---------------------------------------------------------------------------------------
  // Roles
  // ---------------------------------------------------------------------------------------

  /** The clock is the channel that is more periodic over the active window, the first of the two
      on a tie, and the spread is by how much, at most 1. */
  ghost predicate RolesOf(a: Channel, b: Channel, strength: seq<bool> -> real, roles: Roles) {
    exists window: (int, int) :: IsWindow(a.signal, b.signal, window) && RolesIn(a, b, strength, window, roles)
  }

  ghost predicate RolesIn(a: Channel, b: Channel, strength: seq<bool> -> real, window: (int, int), roles: Roles) {
    && 0 <= window.0 <= window.1
    && var x, y := strength(Slice(a.signal, window)), strength(Slice(b.signal, window));
    && (roles.clock, roles.other) == (if x < y then (b, a) else (a, b))
    && var lead := if x < y then y - x else x - y;
    && roles.spread == if lead > 1.0 then 1.0 else lead
  }

  lemma {:induction false} ClockExactly(a: Channel, b: Channel, strength: seq<bool> -> real)
    ensures RolesOf(a, b, strength, ClockOf(a, b, strength))
  {
    hide ActiveWindow, Clip, IsWindow, Slice;
    var window := ActiveWindow(a.signal, b.signal);
    WindowExactly(a.signal, b.signal);
    WindowOrdered(a.signal, b.signal, window);
    ClipIsSlice(a.signal, window);
    ClipIsSlice(b.signal, window);
    assert RolesIn(a, b, strength, window, ClockOf(a, b, strength));
  }

  ghost function ChangesIn(c: seq<bool>): set<int> {
    set i | 0 <= i < |c| && IsEdge(c, i)
  }

  lemma {:induction false} EdgesCount(c: seq<bool>)
    ensures |Edges(c)| == |ChangesIn(c)|
  {
    hide Edges, IsEdge;
    EdgesExact(c);
    CountIndices(c, Edges(c), |Edges(c)|);
    var indices := set k | 0 <= k < |Edges(c)| :: Edges(c)[k].index;
    forall i ensures i in indices <==> i in ChangesIn(c) {
      if i in ChangesIn(c) {
        var k := FindEdge(c, Edges(c), i);
      }
      if i in indices {
        var k :| 0 <= k < |Edges(c)| && Edges(c)[k].index == i;
        EdgeAt(c, Edges(c), k);
        EdgeInside(c, i);
      }
    }
    assert indices == ChangesIn(c);
    assert indices == set k | 0 <= k < |Edges(c)| :: Edges(c)[k].index;
  }

  lemma EdgeInside(c: seq<bool>, i: int)
    requires IsEdge(c, i)
    ensures 0 <= i < |c|
  {
  }

  lemma {:induction false} CountIndices(c: seq<bool>, edges: seq<Edge>, n: nat)
    requires Increasing(edges) && n <= |edges|
    ensures |set k | 0 <= k < n :: edges[k].index| == n
  {
    if n > 0 {
      CountIndices(c, edges, n - 1);
      var before := set k | 0 <= k < n - 1 :: edges[k].index;
      assert (set k | 0 <= k < n :: edges[k].index) == before + {edges[n - 1].index};
    }
  }

  /** Chip select is the first channel with the fewest level changes; the others keep their order. */
  lemma {:induction false} SelectExactly(a: Channel, b: Channel, c: Channel)
    ensures var x, y, z := |ChangesIn(a.signal)|, |ChangesIn(b.signal)|, |ChangesIn(c.signal)|;
      && (SelectOf(a, b, c) == (a, b, c) || SelectOf(a, b, c) == (b, a, c) || SelectOf(a, b, c) == (c, a, b))
      && (x <= y && x <= z ==> SelectOf(a, b, c) == (a, b, c))
      && (y < x && y <= z ==> SelectOf(a, b, c) == (b, a, c))
      && (z < x && z < y ==> SelectOf(a, b, c) == (c, a, b))
  {
    hide Edges, ChangesIn;
    EdgesCount(a.signal);
    EdgesCount(b.signal);
    EdgesCount(c.signal);
  }

  // ---------------------------------------------------------------------------------------
  // Confinement
  // ---------------------------------------------------------------------------------------

  ghost function ChangesUnder(clock: seq<bool>, cs: seq<bool>): set<int>
    requires |clock| == |cs|
  {
    set i | i in ChangesIn(clock) && !cs[i]
  }

  ghost function LowPlaces(cs: seq<bool>, edges: seq<Edge>): set<int>
    requires forall i :: 0 <= i < |edges| ==> 0 <= edges[i].index < |cs|
  {
    set k | 0 <= k < |edges| && !cs[edges[k].index] :: edges[k].index
  }

  lemma LowStep(cs: seq<bool>, edges: seq<Edge>)
    requires edges != [] && Increasing(edges) && forall i :: 0 <= i < |edges| ==> 0 <= edges[i].index < |cs|
    ensures var n := |edges| - 1;
      |LowPlaces(cs, edges)| == |LowPlaces(cs, edges[..n])| + (if cs[edges[n].index] then 0 else 1)
  {
    var n := |edges| - 1;
    var front := edges[..n];
    var before := LowPlaces(cs, front);
    assert forall k :: 0 <= k < n ==> front[k] == edges[k];
    if cs[edges[n].index] {
      assert LowPlaces(cs, edges) == before;
    } else {
      assert LowPlaces(cs, edges) == before + {edges[n].index};
      assert edges[n].index !in before;
    }
  }

  lemma {:induction false} CountsUnder(cs: seq<bool>, edges: seq<Edge>)
    requires Increasing(edges) && forall i :: 0 <= i < |edges| ==> 0 <= edges[i].index < |cs|
    ensures SpiInference.CountLow(cs, edges) == |LowPlaces(cs, edges)|
  {
    hide LowPlaces;
    if edges == [] {
      NoLowPlaces(cs, edges);
    } else {
      CountsUnder(cs, edges[..|edges| - 1]);
      LowStep(cs, edges);
    }
  }

  lemma NoLowPlaces(cs: seq<bool>, edges: seq<Edge>)
    requires edges == []
    ensures LowPlaces(cs, edges) == {}
  {
  }

  /** Two factors: how close chip select comes to changing just twice, and the share of clock edges
      that find it low; without clock edges there is nothing to confine. */
  lemma {:induction false} ConfinementExactly(clock: seq<bool>, cs: seq<bool>)
    requires |clock| == |cs|
    ensures var edges, low, selects := |ChangesIn(clock)|, |ChangesUnder(clock, cs)|, |ChangesIn(cs)|;
      SpiInference.Confinement(clock, cs)
      == if edges == 0 then 0.0
         else (if selects <= 2 then 1.0 else 2.0 / selects as real) * (low as real / edges as real)
  {
    hide Edges, IsEdge, SpiInference.CountLow;
    EdgesCount(clock);
    EdgesCount(cs);
    SpiInference.EdgesInRange(clock);
    EdgesExact(clock);
    CountsUnder(cs, Edges(clock));
    LowIndices(clock, cs, Edges(clock));
  }

  lemma {:induction false} LowIndices(clock: seq<bool>, cs: seq<bool>, edges: seq<Edge>)
    requires |clock| == |cs| && AreEdges(clock, edges)
    requires forall i :: 0 <= i < |edges| ==> 0 <= edges[i].index < |cs|
    ensures LowPlaces(cs, edges) == ChangesUnder(clock, cs)
  {
    hide IsEdge;
    forall i
      ensures i in LowPlaces(cs, edges) <==> i in ChangesUnder(clock, cs)
    {
      if i in ChangesUnder(clock, cs) {
        var k := FindEdge(clock, edges, i);
      }
      if k :| 0 <= k < |edges| && !cs[edges[k].index] && edges[k].index == i {
        EdgeAt(clock, edges, k);
      }
    }
  }

  lemma {:induction false} ConfinementInRange(clock: seq<bool>, cs: seq<bool>)
    requires |clock| == |cs|
    ensures 0.0 <= SpiInference.Confinement(clock, cs) <= 1.0
  {
    hide IsEdge;
    ConfinementExactly(clock, cs);
    var edges, low, selects := |ChangesIn(clock)|, |ChangesUnder(clock, cs)|, |ChangesIn(cs)|;
    if edges > 0 {
      Subsets(ChangesUnder(clock, cs), ChangesIn(clock));
      SpiInference.Ratio(low, edges);
      if selects > 2 {
        SpiInference.Ratio(2, selects);
      }
      InUnit(if selects <= 2 then 1.0 else 2.0 / selects as real, low as real / edges as real);
    }
  }

  lemma Subsets(a: set<int>, b: set<int>)
    requires a <= b
    ensures |a| <= |b|
  {
    assert b == a + (b - a);
  }

  lemma InUnit(x: real, y: real)
    requires 0.0 <= x <= 1.0 && 0.0 <= y <= 1.0
    ensures 0.0 <= x * y <= 1.0
  {
    ProductSign(x, y, x * y);
    ProductSign(x, 1.0 - y, x - x * y);
  }

  lemma ProductSign(x: real, y: real, p: real)
    requires x >= 0.0 && y >= 0.0 && p == x * y
    ensures p >= 0.0
  {
  }

  // ---------------------------------------------------------------------------------------
  // Start and stop structure
  // ---------------------------------------------------------------------------------------

  /** Data changes to this level while the clock stays high. */
  ghost predicate IsMark(scl: seq<bool>, sda: seq<bool>, i: int, rising: bool) {
    && 0 < i < |sda| && i < |scl|
    && scl[i - 1] && scl[i] && sda[i - 1] == !rising && sda[i] == rising
  }

  lemma {:induction false} ConditionsAre(edges: seq<Edge>, scl: seq<bool>, e: Edge)
    requires forall i :: 0 <= i < |edges| ==> edges[i].index >= 1
    ensures e in I2c.Conditions(edges, scl) <==> e in edges && e.index < |scl| && scl[e.index - 1] && scl[e.index]
  {
    if edges != [] {
      var n := |edges| - 1;
      ConditionsAre(edges[..n], scl, e);
      assert edges == edges[..n] + [edges[n]];
    }
  }

  lemma {:induction false} ConditionsAscend(edges: seq<Edge>, scl: seq<bool>)
    requires Increasing(edges) && forall i :: 0 <= i < |edges| ==> edges[i].index >= 1
    ensures Increasing(I2c.Conditions(edges, scl))
  {
    if edges != [] {
      var n := |edges| - 1;
      ConditionsAscend(edges[..n], scl);
      var before := I2c.Conditions(edges[..n], scl);
      forall k | 0 <= k < |before| ensures before[k].index < edges[n].index {
        assert before[k] in before;
        ConditionsAre(edges[..n], scl, before[k]);
        assert before[k] in edges[..n];
      }
    }
  }

  /** On any two lines the detector's conditions are exactly these, in order: a start for every
      fall of the data line under a high clock, a stop for every rise. */
  lemma {:induction false} MarksExactly(scl: seq<bool>, sda: seq<bool>)
    ensures Increasing(I2c.Marks(scl, sda))
    ensures forall i, rising :: Edge(i, rising) in I2c.Marks(scl, sda) <==> IsMark(scl, sda, i, rising)
  {
    hide Edges, I2c.Conditions;
    I2c.EdgesPositive(sda);
    EdgesExact(sda);
    ConditionsAscend(Edges(sda), scl);
    forall i, rising ensures Edge(i, rising) in I2c.Marks(scl, sda) <==> IsMark(scl, sda, i, rising) {
      ConditionsAre(Edges(sda), scl, Edge(i, rising));
      if IsMark(scl, sda, i, rising) {
        assert IsEdge(sda, Edge(i, rising).index);
      }
    }
  }

  ghost function MarksOf(scl: seq<bool>, sda: seq<bool>, rising: bool): set<int> {
    set i | 0 <= i < |sda| && IsMark(scl, sda, i, rising)
  }

  lemma {:induction false} MarksCount(scl: seq<bool>, sda: seq<bool>, rising: bool)
    ensures |IndicesOf(I2c.Marks(scl, sda), rising)| == |MarksOf(scl, sda, rising)|
  {
    hide I2c.Marks, IsMark, IndicesOf;
    var marks := I2c.Marks(scl, sda);
    var indices := IndicesOf(marks, rising);
    MarksExactly(scl, sda);
    IndicesExactly(marks, rising);
    AscendingCount(indices);
    forall i ensures i in indices <==> i in MarksOf(scl, sda, rising) {
      if i in indices {
        MarkInside(scl, sda, i, rising);
      }
    }
    assert (set i | i in indices) == MarksOf(scl, sda, rising);
  }

  lemma MarkInside(scl: seq<bool>, sda: seq<bool>, i: int, rising: bool)
    requires IsMark(scl, sda, i, rising)
    ensures 0 <= i < |sda|
  {
  }

  /** As many starts as stops, and at least one. */
  lemma {:induction false} StructureExactly(scl: seq<bool>, sda: seq<bool>)
    ensures HasStructure(scl, sda) <==> |MarksOf(scl, sda, false)| == |MarksOf(scl, sda, true)| >= 1
  {
    hide I2c.Marks, IndicesOf, MarksOf;
    MarksCount(scl, sda, false);
    MarksCount(scl, sda, true);
  }

  // ---------------------------------------------------------------------------------------
  // The claims
  // ---------------------------------------------------------------------------------------

  /** An SPI claim for three equally long channels, role by role. */
  lemma {:induction false} SpiClaimExactly(a: Channel, b: Channel, c: Channel, strength: seq<bool> -> real)
    returns (cs: Channel, roles: Roles)
    requires |a.signal| == |b.signal| == |c.signal|
    ensures var x, y := SelectOf(a, b, c).1, SelectOf(a, b, c).2;
      cs == SelectOf(a, b, c).0 && RolesOf(x, y, strength, roles)
    ensures |roles.clock.signal| == |cs.signal|
    ensures var confidence := roles.spread * SpiInference.Confinement(roles.clock.signal, cs.signal);
      SpiClaim([a, b, c], strength)
      == if confidence < 0.4 then None
         else Some(Claim("SPI", [("clk", roles.clock.name), ("cs", cs.name), ("data", roles.other.name)], confidence))
  {
    hide ClockOf, RolesOf, SpiInference.Confinement, Transitions;
    var (s, x, y) := SelectOf(a, b, c);
    cs, roles := s, ClockOf(x, y, strength);
    ClockExactly(x, y, strength);
    RolesAreTheTwo(x, y, strength, roles);
    ConfinementInRange(roles.clock.signal, cs.signal);
    InUnit(roles.spread, SpiInference.Confinement(roles.clock.signal, cs.signal));
    ClaimOfRoles([a, b, c], strength, cs, roles,
                 roles.spread * SpiInference.Confinement(roles.clock.signal, cs.signal));
  }

  lemma ClaimOfRoles(group: seq<Channel>, strength: seq<bool> -> real, cs: Channel, roles: Roles, confidence: real)
    requires |group| == 3
    requires var (s, x, y) := SelectOf(group[0], group[1], group[2]); cs == s && roles == ClockOf(x, y, strength)
    requires |roles.clock.signal| == |cs.signal|
    requires confidence == roles.spread * SpiInference.Confinement(roles.clock.signal, cs.signal)
    requires 0.0 <= confidence <= 1.0
    ensures SpiClaim(group, strength)
         == if confidence < 0.4 then None
            else Some(Claim("SPI", [("clk", roles.clock.name), ("cs", cs.name), ("data", roles.other.name)],
                            confidence))
  {
    hide SelectOf, ClockOf, SpiInference.Confinement;
    assert Containment(roles.clock, cs) == SpiInference.Confinement(roles.clock.signal, cs.signal);
    var clamped := Clamp01(roles.spread * Containment(roles.clock, cs));
    assert clamped == confidence;
    assert clamped < MULTI_CHANNEL_THRESHOLD <==> confidence < 0.4;
    if clamped >= 0.4 {
      assert SpiClaim(group, strength).Some? && SpiClaim(group, strength).value.confidence == confidence;
      assert SpiClaim(group, strength).value.protocol == "SPI";
      assert SpiClaim(group, strength).value.roles
        == [("clk", roles.clock.name), ("cs", cs.name), ("data", roles.other.name)];
    }
  }

  lemma RolesAreTheTwo(a: Channel, b: Channel, strength: seq<bool> -> real, roles: Roles)
    requires RolesOf(a, b, strength, roles)
    ensures (roles.clock, roles.other) == (a, b) || (roles.clock, roles.other) == (b, a)
    ensures 0.0 <= roles.spread <= 1.0
  {
    hide IsWindow, Slice;
  }

  /** An I2C claim for two channels. */
  lemma {:induction false} I2cClaimExactly(a: Channel, b: Channel, strength: seq<bool> -> real) returns (roles: Roles)
    ensures RolesOf(a, b, strength, roles)
    ensures I2cClaim([a, b], strength)
         == if HasStructure(roles.clock.signal, roles.other.signal) && roles.spread >= 0.4
            then Some(Claim("I2C", [("scl", roles.clock.name), ("sda", roles.other.name)], roles.spread)) else None
  {
    hide ClockOf, RolesOf, HasStructure;
    roles := ClockOf(a, b, strength);
    ClockExactly(a, b, strength);
    RolesAreTheTwo(a, b, strength, roles);
  }
}
