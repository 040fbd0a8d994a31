/** The classifier's greedy channel allocation (src/slidko/measure/classify.py) and the role
    assignments it builds on (src/slidko/measure/spi.py, src/slidko/measure/i2c.py). */
module Classify {
  import opened Numbers
  import opened Results
  import opened Signals
  import opened Captures
  import I2c
  import SpiInference

  const MULTI_CHANNEL_THRESHOLD := 0.4

  /** A protocol claim: which channel plays which role, and how sure it is. */
  datatype Claim = Claim(protocol: string, roles: seq<(string, string)>, confidence: real)

  /** Anything that scores a group of channels. */
  type Scorer = seq<Channel> -> Option<Claim>

  /** A claim and the channels it was made for. */
  datatype Choice = Choice(claim: Claim, group: seq<Channel>)

  // ---------------------------------------------------------------------------------------
  // Combinations
  // ---------------------------------------------------------------------------------------

  function Prefixed(c: Channel, groups: seq<seq<Channel>>): seq<seq<Channel>> {
    seq(|groups|, i requires 0 <= i < |groups| => [c] + groups[i])
  }

  /** `combinations(channels, k)`: the groups of `k` channels, in lexicographic order. */
  function Combinations(channels: seq<Channel>, k: nat): seq<seq<Channel>>
    decreases |channels|
  {
    if k == 0 then [[]]
    else if channels == [] then []
    else Prefixed(channels[0], Combinations(channels[1..], k - 1)) + Combinations(channels[1..], k)
  }

  function Names(channels: seq<Channel>): set<string> {
    set i | 0 <= i < |channels| :: channels[i].name
  }

  ghost predicate Distinct(channels: seq<Channel>) {
    forall i, j :: 0 <= i < j < |channels| ==> channels[i].name != channels[j].name
  }

  /** A combination has `k` of the channels, in their order. */
  lemma {:induction false} CombinationsAreGroups(channels: seq<Channel>, k: nat, group: seq<Channel>)
    requires group in Combinations(channels, k)
    ensures |group| == k
    ensures forall c :: c in group ==> c in channels
    ensures Distinct(channels) ==> Distinct(group)
    decreases |channels|
  {
    if k > 0 {
      var rest := channels[1..];
      if group in Combinations(rest, k) {
        CombinationsAreGroups(rest, k, group);
      } else {
        var i :| 0 <= i < |Combinations(rest, k - 1)| && group == [channels[0]] + Combinations(rest, k - 1)[i];
        CombinationsAreGroups(rest, k - 1, Combinations(rest, k - 1)[i]);
        HeadIsFresh(channels, Combinations(rest, k - 1)[i]);
      }
    }
  }

  lemma {:induction false} HeadIsFresh(channels: seq<Channel>, group: seq<Channel>)
    requires channels != []
    requires forall c :: c in group ==> c in channels[1..]
    requires Distinct(channels[1..]) ==> Distinct(group)
    ensures Distinct(channels) ==> Distinct([channels[0]] + group)
  {
    if Distinct(channels) {
      assert Distinct(channels[1..]);
      forall j | 0 <= j < |group| ensures group[j].name != channels[0].name {
        assert group[j] in channels[1..];
      }
    }
  }

  // ---------------------------------------------------------------------------------------
  // The best group
  // ---------------------------------------------------------------------------------------

  /** The claim of highest confidence; the earliest group wins a tie. */
  function Best(groups: seq<seq<Channel>>, score: Scorer): Option<Choice> {
    if groups == [] then None
    else
      var n := |groups| - 1;
      var best, claim := Best(groups[..n], score), score(groups[n]);
      if claim.Some? && (best.None? || claim.value.confidence > best.value.claim.confidence)
      then Some(Choice(claim.value, groups[n]))
      else best
  }

  method FindBest(groups: seq<seq<Channel>>, score: Scorer) returns (best: Option<Choice>)
    ensures best == Best(groups, score)
  {
    best := None;
    for i := 0 to |groups|
      invariant best == Best(groups[..i], score)
    {
      assert groups[..i + 1][..i] == groups[..i];
      var claim := score(groups[i]);
      if claim.Some? && (best.None? || claim.value.confidence > best.value.claim.confidence) {
        best := Some(Choice(claim.value, groups[i]));
      }
    }
    assert groups[..|groups|] == groups;
  }

  ghost predicate NoneClaimed(groups: seq<seq<Channel>>, score: Scorer) {
    forall i :: 0 <= i < |groups| ==> score(groups[i]).None?
  }

  /** No group before it scores as high, none behind it higher. */
  ghost predicate IsBest(groups: seq<seq<Channel>>, score: Scorer, choice: Choice, i: int) {
    && 0 <= i < |groups|
    && groups[i] == choice.group
    && score(choice.group) == Some(choice.claim)
    && forall j :: 0 <= j < |groups| && score(groups[j]).Some? ==>
         if j < i then score(groups[j]).value.confidence < choice.claim.confidence
         else score(groups[j]).value.confidence <= choice.claim.confidence
  }

  lemma {:induction false} BestExactly(groups: seq<seq<Channel>>, score: Scorer) returns (i: int)
    ensures Best(groups, score).None? <==> NoneClaimed(groups, score)
    ensures Best(groups, score).Some? ==> IsBest(groups, score, Best(groups, score).value, i)
  {
    i := 0;
    if groups != [] {
      var n := |groups| - 1;
      i := BestExactly(groups[..n], score);
      var best, claim := Best(groups[..n], score), score(groups[n]);
      if claim.Some? && (best.None? || claim.value.confidence > best.value.claim.confidence) {
        i := n;
        assert best.None? ==> forall j :: 0 <= j < n ==> score(groups[..n][j]).None?;
      } else {
        assert best.Some? ==> IsBest(groups, score, best.value, i);
      }
    }
  }

  // ---------------------------------------------------------------------------------------
  // One greedy phase
  // ---------------------------------------------------------------------------------------

  /** The channels without those of a group: `del remaining[n]` for its names. */
  function Without(channels: seq<Channel>, group: seq<Channel>): seq<Channel> {
    if channels == [] then []
    else (if channels[0].name in Names(group) then [] else [channels[0]]) + Without(channels[1..], group)
  }

  datatype Outcome = Outcome(choices: seq<Choice>, rest: seq<Channel>)

  lemma {:induction false} WithoutExact(channels: seq<Channel>, group: seq<Channel>)
    ensures Names(Without(channels, group)) == Names(channels) - Names(group)
    ensures forall c :: c in Without(channels, group) ==> c in channels
    ensures Distinct(channels) ==> Distinct(Without(channels, group))
    ensures |Without(channels, group)| <= |channels|
    ensures Names(channels) * Names(group) != {} ==> |Without(channels, group)| < |channels|
  {
    if channels != [] {
      var rest := channels[1..];
      WithoutExact(rest, group);
      assert channels == [channels[0]] + rest;
      NamesCons(channels[0], rest);
      if channels[0].name !in Names(group) {
        NamesCons(channels[0], Without(rest, group));
        HeadIsFresh(channels, Without(rest, group));
      } else {
        assert [] + Without(rest, group) == Without(rest, group);
      }
    }
  }

  lemma {:induction false} NamesCons(c: Channel, rest: seq<Channel>)
    ensures Names([c] + rest) == {c.name} + Names(rest)
  {
    assert forall i :: 0 <= i < |rest| ==> ([c] + rest)[i + 1] == rest[i];
    forall name ensures name in Names([c] + rest) <==> name == c.name || name in Names(rest) {
      if name in Names(rest) {
        var i :| 0 <= i < |rest| && rest[i].name == name;
        assert ([c] + rest)[i + 1].name == name;
      }
      if name == c.name {
        assert ([c] + rest)[0].name == name;
      }
    }
  }

  /** Removing a chosen group makes progress. */
  lemma {:induction false} ChoiceShrinks(channels: seq<Channel>, k: nat, score: Scorer)
    requires k >= 1 && Best(Combinations(channels, k), score).Some?
    ensures var group := Best(Combinations(channels, k), score).value.group;
      && group in Combinations(channels, k)
      && |Without(channels, group)| < |channels|
  {
    var i := BestExactly(Combinations(channels, k), score);
    var group := Best(Combinations(channels, k), score).value.group;
    CombinationsAreGroups(channels, k, group);
    WithoutExact(channels, group);
    assert group[0] in channels;
    SharedName(channels, group, group[0]);
  }

  lemma SharedName(channels: seq<Channel>, group: seq<Channel>, c: Channel)
    requires c in channels && c in group
    ensures c.name in Names(channels) * Names(group)
  {
  }

  /** Greedily choosing groups of `k` until too few channels remain or none scores. */
  function Greedy(channels: seq<Channel>, k: nat, score: Scorer): Outcome
    requires k >= 1
    decreases |channels|
  {
    if |channels| < k then Outcome([], channels)
    else
      match Best(Combinations(channels, k), score)
      case None => Outcome([], channels)
      case Some(best) =>
        ChoiceShrinks(channels, k, score);
        var later := Greedy(Without(channels, best.group), k, score);
        Outcome([best] + later.choices, later.rest)
  }

  method RunPhase(channels: seq<Channel>, k: nat, score: Scorer) returns (claims: seq<Claim>, remaining: seq<Channel>)
    requires k >= 1
    ensures claims == ClaimsOf(Greedy(channels, k, score).choices)
    ensures remaining == Greedy(channels, k, score).rest
  {
    hide Combinations, Best, Without;
    claims, remaining := [], channels;
    ghost var done: seq<Choice> := [];
    assert done + Greedy(remaining, k, score).choices == Greedy(channels, k, score).choices;
    while |remaining| >= k
      invariant claims == ClaimsOf(done)
      invariant done + Greedy(remaining, k, score).choices == Greedy(channels, k, score).choices
      invariant Greedy(remaining, k, score).rest == Greedy(channels, k, score).rest
      decreases |remaining|
    {
      var best := FindBest(Combinations(remaining, k), score);
      if best.None? {
        break;
      }
      ChoiceShrinks(remaining, k, score);
      ghost var later := Greedy(Without(remaining, best.value.group), k, score).choices;
      assert done + ([best.value] + later) == (done + [best.value]) + later;
      claims := claims + [best.value.claim];
      done := done + [best.value];
      remaining := Without(remaining, best.value.group);
    }
    assert done + [] == done;
  }

  function ClaimsOf(choices: seq<Choice>): seq<Claim> {
    seq(|choices|, i requires 0 <= i < |choices| => choices[i].claim)
  }

  // ---------------------------------------------------------------------------------------
  // What a phase guarantees
  // ---------------------------------------------------------------------------------------

  function NamesOf(choices: seq<Choice>): set<string> {
    if choices == [] then {}
    else Names(choices[0].group) + NamesOf(choices[1..])
  }

  /** The names of each group are apart from those of every later one. */
  ghost predicate Apart(choices: seq<Choice>) {
    forall i, j :: 0 <= i < j < |choices| ==> Names(choices[i].group) !! Names(choices[j].group)
  }

  ghost predicate Groups(choices: seq<Choice>, k: nat) {
    forall i :: 0 <= i < |choices| ==> |choices[i].group| == k && Distinct(choices[i].group)
  }

  ghost predicate Scored(choices: seq<Choice>, score: Scorer) {
    forall i :: 0 <= i < |choices| ==> score(choices[i].group) == Some(choices[i].claim)
  }

  lemma {:induction false} NamesWithin(choices: seq<Choice>, i: int)
    requires 0 <= i < |choices|
    ensures Names(choices[i].group) <= NamesOf(choices)
  {
    if i > 0 {
      NamesWithin(choices[1..], i - 1);
    }
  }

  lemma {:induction false} ApartCons(choice: Choice, later: seq<Choice>)
    requires Apart(later) && Names(choice.group) !! NamesOf(later)
    ensures Apart([choice] + later)
    ensures NamesOf([choice] + later) == Names(choice.group) + NamesOf(later)
  {
    hide Names, NamesOf;
    var all := [choice] + later;
    assert all[1..] == later;
    NamesOfCons(choice, later);
    forall i, j | 0 <= i < j < |all| ensures Names(all[i].group) !! Names(all[j].group) {
      if i == 0 {
        NamesWithin(later, j - 1);
      } else {
        assert all[i] == later[i - 1] && all[j] == later[j - 1];
      }
    }
  }

  lemma {:induction false} NamesOfCons(choice: Choice, later: seq<Choice>)
    ensures NamesOf([choice] + later) == Names(choice.group) + NamesOf(later)
  {
    assert ([choice] + later)[1..] == later;
  }

  /** A phase splits the channels: the chosen groups and the rest share no name and together
      have all of them. Every choice is what the scorer says of its group of `k`. */
  lemma {:induction false} PhasePartitions(channels: seq<Channel>, k: nat, score: Scorer)
    requires k >= 1 && Distinct(channels)
    ensures var outcome := Greedy(channels, k, score);
      && Apart(outcome.choices)
      && NamesOf(outcome.choices) !! Names(outcome.rest)
      && NamesOf(outcome.choices) + Names(outcome.rest) == Names(channels)
      && Distinct(outcome.rest)
      && Groups(outcome.choices, k)
      && Scored(outcome.choices, score)
    decreases |channels|
  {
    hide Names, Combinations, Without, Distinct;
    var best := Best(Combinations(channels, k), score);
    if |channels| >= k && best.Some? {
      var choice := best.value;
      ChoiceShrinks(channels, k, score);
      var i := BestExactly(Combinations(channels, k), score);
      CombinationsAreGroups(channels, k, choice.group);
      WithoutExact(channels, choice.group);
      SubsetNames(choice.group, channels);
      PhasePartitions(Without(channels, choice.group), k, score);
      var later := Greedy(Without(channels, choice.group), k, score);
      ApartCons(choice, later.choices);
      GroupsCons(choice, later.choices, k, score);
    }
  }

  lemma {:induction false} SubsetNames(group: seq<Channel>, channels: seq<Channel>)
    requires forall c :: c in group ==> c in channels
    ensures Names(group) <= Names(channels)
  {
    forall name | name in Names(group) ensures name in Names(channels) {
      var i :| 0 <= i < |group| && group[i].name == name;
      assert group[i] in channels;
    }
  }

  lemma {:induction false} GroupsCons(choice: Choice, later: seq<Choice>, k: nat, score: Scorer)
    requires Groups(later, k) && Scored(later, score)
    requires |choice.group| == k && Distinct(choice.group) && score(choice.group) == Some(choice.claim)
    ensures Groups([choice] + later, k) && Scored([choice] + later, score)
  {
    hide Distinct;
  }

  /** Groups of fewer channels are among the groups of more. */
  lemma {:induction false} CombinationsShrink(channels: seq<Channel>, removed: seq<Channel>, k: nat,
                                              group: seq<Channel>)
    requires group in Combinations(Without(channels, removed), k)
    ensures group in Combinations(channels, k)
    decreases |channels|
  {
    hide Names;
    if k > 0 && channels != [] {
      var rest, fewer := channels[1..], Without(channels[1..], removed);
      if channels[0].name in Names(removed) {
        assert [] + fewer == fewer;
        CombinationsShrink(rest, removed, k, group);
      } else {
        assert ([channels[0]] + fewer)[1..] == fewer;
        if group in Combinations(fewer, k) {
          CombinationsShrink(rest, removed, k, group);
        } else {
          var i :| 0 <= i < |Combinations(fewer, k - 1)| && group == [channels[0]] + Combinations(fewer, k - 1)[i];
          CombinationsShrink(rest, removed, k - 1, Combinations(fewer, k - 1)[i]);
          PrefixedMember(channels[0], Combinations(rest, k - 1), Combinations(fewer, k - 1)[i]);
        }
      }
    }
  }

  lemma {:induction false} PrefixedMember(c: Channel, groups: seq<seq<Channel>>, group: seq<Channel>)
    requires group in groups
    ensures [c] + group in Prefixed(c, groups)
  {
    var i :| 0 <= i < |groups| && groups[i] == group;
    assert Prefixed(c, groups)[i] == [c] + group;
  }

  ghost predicate NonIncreasing(choices: seq<Choice>) {
    forall i, j :: 0 <= i < j < |choices| ==> choices[j].claim.confidence <= choices[i].claim.confidence
  }

  /** No group of the channels scores above `bound`. */
  ghost predicate Bounded(channels: seq<Channel>, k: nat, score: Scorer, bound: real) {
    forall group :: group in Combinations(channels, k) && score(group).Some? ==> score(group).value.confidence <= bound
  }

  lemma {:induction false} BestBounds(channels: seq<Channel>, k: nat, score: Scorer)
    requires Best(Combinations(channels, k), score).Some?
    ensures var best := Best(Combinations(channels, k), score).value;
      && best.group in Combinations(channels, k)
      && score(best.group) == Some(best.claim)
      && Bounded(channels, k, score, best.claim.confidence)
  {
    hide Combinations;
    var groups := Combinations(channels, k);
    var i := BestExactly(groups, score);
    var best := Best(groups, score).value;
    forall group | group in groups && score(group).Some?
      ensures score(group).value.confidence <= best.claim.confidence
    {
      var j :| 0 <= j < |groups| && groups[j] == group;
    }
  }

  lemma {:induction false} BoundedShrinks(channels: seq<Channel>, removed: seq<Channel>, k: nat, score: Scorer,
                                          bound: real)
    requires Bounded(channels, k, score, bound)
    ensures Bounded(Without(channels, removed), k, score, bound)
  {
    hide Combinations, Without;
    forall group | group in Combinations(Without(channels, removed), k) && score(group).Some?
      ensures score(group).value.confidence <= bound
    {
      CombinationsShrink(channels, removed, k, group);
    }
  }

  /** Within a phase the confidences never rise: each choice is the best of what was left. */
  lemma {:induction false} PhaseNonIncreasing(channels: seq<Channel>, k: nat, score: Scorer, bound: real)
    requires k >= 1 && Bounded(channels, k, score, bound)
    ensures NonIncreasing(Greedy(channels, k, score).choices)
    ensures forall i :: 0 <= i < |Greedy(channels, k, score).choices| ==>
      Greedy(channels, k, score).choices[i].claim.confidence <= bound
    decreases |channels|
  {
    hide Combinations, Without, Best, Bounded;
    var best := Best(Combinations(channels, k), score);
    if |channels| >= k && best.Some? {
      var choice := best.value;
      ChoiceShrinks(channels, k, score);
      BestBounds(channels, k, score);
      WithinBound(channels, k, score, bound, choice);
      BoundedShrinks(channels, choice.group, k, score, choice.claim.confidence);
      PhaseNonIncreasing(Without(channels, choice.group), k, score, choice.claim.confidence);
    }
  }

  lemma {:induction false} WithinBound(channels: seq<Channel>, k: nat, score: Scorer, bound: real, choice: Choice)
    requires Bounded(channels, k, score, bound)
    requires choice.group in Combinations(channels, k) && score(choice.group) == Some(choice.claim)
    ensures choice.claim.confidence <= bound
  {
  }

  /** A phase ends only when no group of `k` among the rest scores any more. */
  lemma {:induction false} PhaseExhausts(channels: seq<Channel>, k: nat, score: Scorer, group: seq<Channel>)
    requires k >= 1
    requires group in Combinations(Greedy(channels, k, score).rest, k)
    ensures score(group).None?
    decreases |channels|
  {
    hide Combinations, Without, Best;
    var best := Best(Combinations(channels, k), score);
    if |channels| < k {
      TooFew(channels, k, group);
    } else if best.Some? {
      ChoiceShrinks(channels, k, score);
      PhaseExhausts(Without(channels, best.value.group), k, score, group);
    } else {
      var i := BestExactly(Combinations(channels, k), score);
      var j :| 0 <= j < |Combinations(channels, k)| && Combinations(channels, k)[j] == group;
    }
  }

  lemma {:induction false} TooFew(channels: seq<Channel>, k: nat, group: seq<Channel>)
    requires |channels| < k
    ensures Combinations(channels, k) == []
    decreases |channels|
  {
    if channels != [] {
      TooFew(channels[1..], k - 1, group);
      TooFew(channels[1..], k, group);
    }
  }

  // ---------------------------------------------------------------------------------------
  // The whole classification
  // ---------------------------------------------------------------------------------------

  /** The claims of the channels that no group took, one at a time. */
  function Singles(channels: seq<Channel>, score: Scorer): seq<Choice> {
    if channels == [] then []
    else
      var n := |channels| - 1;
      Singles(channels[..n], score)
      + (match score([channels[n]])
         case None => []
         case Some(claim) => [Choice(claim, [channels[n]])])
  }

  /** What `classify` promises: triples first, then pairs, then single channels. */
  function Choices(channels: seq<Channel>, triple: Scorer, pair: Scorer, single: Scorer): seq<Choice> {
    var triples := Greedy(channels, 3, triple);
    var pairs := Greedy(triples.rest, 2, pair);
    triples.choices + pairs.choices + Singles(pairs.rest, single)
  }

  method ClassifyChannels(channels: seq<Channel>, triple: Scorer, pair: Scorer, single: Scorer)
    returns (claims: seq<Claim>)
    ensures claims == ClaimsOf(Choices(channels, triple, pair, single))
  {
    hide Greedy;
    var remaining;
    claims, remaining := RunPhase(channels, 3, triple);
    ghost var done := Greedy(channels, 3, triple).choices;
    ghost var pairs := Greedy(remaining, 2, pair).choices;
    var more;
    more, remaining := RunPhase(remaining, 2, pair);
    claims := claims + more;
    assert claims == ClaimsOf(done + pairs);
    for i := 0 to |remaining|
      invariant claims == ClaimsOf(done + pairs + Singles(remaining[..i], single))
    {
      assert remaining[..i + 1][..i] == remaining[..i];
      ghost var before := Singles(remaining[..i], single);
      var claim := single([remaining[i]]);
      if claim.Some? {
        claims := claims + [claim.value];
        assert done + pairs + (before + [Choice(claim.value, [remaining[i]])])
            == (done + pairs + before) + [Choice(claim.value, [remaining[i]])];
      } else {
        assert before + [] == before;
      }
    }
    assert remaining[..|remaining|] == remaining;
  }

  lemma {:induction false} SinglesApart(channels: seq<Channel>, score: Scorer)
    requires Distinct(channels)
    ensures Apart(Singles(channels, score))
    ensures Groups(Singles(channels, score), 1) && Scored(Singles(channels, score), score)
    ensures forall i :: 0 <= i < |Singles(channels, score)| ==>
      exists j :: 0 <= j < |channels| && Singles(channels, score)[i].group == [channels[j]]
  {
    if channels != [] {
      var n := |channels| - 1;
      SinglesApart(channels[..n], score);
      var before := Singles(channels[..n], score);
      if score([channels[n]]).Some? {
        forall i | 0 <= i < |before| ensures Names(before[i].group) !! Names([channels[n]]) {
          var j :| 0 <= j < n && before[i].group == [channels[..n][j]];
          OneName(channels[j]);
          OneName(channels[n]);
        }
      }
    }
  }

  lemma OneName(c: Channel)
    ensures Names([c]) == {c.name}
  {
    assert [c][0] == c;
  }

  lemma {:induction false} SinglesWithin(channels: seq<Channel>, score: Scorer, i: int)
    requires Distinct(channels) && 0 <= i < |Singles(channels, score)|
    ensures Names(Singles(channels, score)[i].group) <= Names(channels)
  {
    SinglesApart(channels, score);
    var j :| 0 <= j < |channels| && Singles(channels, score)[i].group == [channels[j]];
    OneName(channels[j]);
  }

  lemma {:induction false} ApartConcat(a: seq<Choice>, b: seq<Choice>, names: set<string>)
    requires Apart(a) && Apart(b) && NamesOf(a) !! names
    requires forall i :: 0 <= i < |b| ==> Names(b[i].group) <= names
    ensures Apart(a + b)
  {
    hide Names, NamesOf;
    forall i, j | 0 <= i < j < |a + b| ensures Names((a + b)[i].group) !! Names((a + b)[j].group) {
      if i < |a| <= j {
        NamesWithin(a, i);
        assert (a + b)[j] == b[j - |a|];
      } else if i >= |a| {
        assert (a + b)[i] == b[i - |a|] && (a + b)[j] == b[j - |a|];
      }
    }
  }

  /** No channel is in two groups, whatever the scorers say. */
  lemma {:induction false} ChoicesApart(channels: seq<Channel>, triple: Scorer, pair: Scorer, single: Scorer)
    requires Distinct(channels)
    ensures Apart(Choices(channels, triple, pair, single))
    ensures forall i :: 0 <= i < |Choices(channels, triple, pair, single)| ==>
      Names(Choices(channels, triple, pair, single)[i].group) <= Names(channels)
  {
    hide Greedy, Names, Singles, Distinct, NamesOf, Apart;
    var triples := Greedy(channels, 3, triple);
    var pairs := Greedy(triples.rest, 2, pair);
    var singles := Singles(pairs.rest, single);
    PhasePartitions(channels, 3, triple);
    PhasePartitions(triples.rest, 2, pair);
    SinglesApart(pairs.rest, single);
    forall i | 0 <= i < |singles| ensures Names(singles[i].group) <= Names(pairs.rest) {
      SinglesWithin(pairs.rest, single, i);
    }
    forall i | 0 <= i < |pairs.choices| ensures Names(pairs.choices[i].group) <= Names(triples.rest) {
      NamesWithin(pairs.choices, i);
    }
    forall i | 0 <= i < |triples.choices| ensures Names(triples.choices[i].group) <= Names(channels) {
      NamesWithin(triples.choices, i);
    }
    ApartConcat(triples.choices, pairs.choices, Names(triples.rest));
    NamesOfConcat(triples.choices, pairs.choices);
    ApartConcat(triples.choices + pairs.choices, singles, Names(pairs.rest));
  }

  lemma {:induction false} NamesOfConcat(a: seq<Choice>, b: seq<Choice>)
    ensures NamesOf(a + b) == NamesOf(a) + NamesOf(b)
  {
    if a == [] {
      assert a + b == b;
    } else {
      assert (a + b)[1..] == a[1..] + b;
      NamesOfConcat(a[1..], b);
    }
  }

  // ---------------------------------------------------------------------------------------
  // Role assignment
  // ---------------------------------------------------------------------------------------

  /** `active_window` of two channels: from the first edge of either to just behind the last. */
  function ActiveWindow(a: seq<bool>, b: seq<bool>): (window: (int, int)) {
    var x, y := Edges(a), Edges(b);
    if x == [] && y == [] then (0, |a|)
    else if x == [] then (y[0].index, y[|y| - 1].index + 1)
    else if y == [] then (x[0].index, x[|x| - 1].index + 1)
    else (Min(x[0].index, y[0].index), Max(x[|x| - 1].index, y[|y| - 1].index) + 1)
  }

  /** `c[lo:hi]` for bounds that may lie past the end. */
  function Clip(c: seq<bool>, window: (int, int)): seq<bool> {
    var lo, hi := Max(0, Min(window.0, |c|)), Max(0, Min(window.1, |c|));
    if lo <= hi then c[lo..hi] else []
  }

  datatype Roles = Roles(clock: Channel, other: Channel, spread: real)

  /** The more periodic of two channels, by whatever measure, is the clock; the first wins a tie. */
  function ClockOf(a: Channel, b: Channel, strength: seq<bool> -> real): Roles {
    var window := ActiveWindow(a.signal, b.signal);
    var x, y := strength(Clip(a.signal, window)), strength(Clip(b.signal, window));
    if x >= y then Roles(a, b, Clamp01(x - y)) else Roles(b, a, Clamp01(y - x))
  }

  function Transitions(c: Channel): nat {
    |Edges(c.signal)|
  }

  /** The channel with the fewest transitions, and the two others in order. */
  function SelectOf(a: Channel, b: Channel, c: Channel): (Channel, Channel, Channel) {
    if Transitions(a) <= Transitions(b) && Transitions(a) <= Transitions(c) then (a, b, c)
    else if Transitions(b) <= Transitions(c) then (b, a, c)
    else (c, a, b)
  }

  /** `clock_confined_to_cs` on the channels of one capture, which are equally long. */
  function Containment(clock: Channel, cs: Channel): real {
    if |clock.signal| == |cs.signal| then SpiInference.Confinement(clock.signal, cs.signal) else 0.0
  }

  /** `_classify_triple`. */
  function SpiClaim(group: seq<Channel>, strength: seq<bool> -> real): Option<Claim> {
    if |group| != 3 then None
    else
      var (cs, x, y) := SelectOf(group[0], group[1], group[2]);
      var roles := ClockOf(x, y, strength);
      var confidence := Clamp01(roles.spread * Containment(roles.clock, cs));
      if confidence < MULTI_CHANNEL_THRESHOLD then None
      else Some(Claim("SPI", [("clk", roles.clock.name), ("cs", cs.name), ("data", roles.other.name)], confidence))
  }

  /** As many starts as stops, and at least one of each. */
  predicate HasStructure(scl: seq<bool>, sda: seq<bool>) {
    var starts, stops := IndicesOf(I2c.Marks(scl, sda), false), IndicesOf(I2c.Marks(scl, sda), true);
    starts != [] && |starts| == |stops|
  }

  /** `_classify_pair`. */
  function I2cClaim(group: seq<Channel>, strength: seq<bool> -> real): Option<Claim> {
    if |group| != 2 then None
    else
      var roles := ClockOf(group[0], group[1], strength);
      var confidence := Clamp01(roles.spread * (if HasStructure(roles.clock.signal, roles.other.signal) then 1.0
                                                else 0.0));
      if confidence < MULTI_CHANNEL_THRESHOLD then None
      else Some(Claim("I2C", [("scl", roles.clock.name), ("sda", roles.other.name)], confidence))
  }

  function RoleNames(claim: Claim): seq<string> {
    seq(|claim.roles|, i requires 0 <= i < |claim.roles| => claim.roles[i].1)
  }

  function GroupNames(group: seq<Channel>): seq<string> {
    seq(|group|, i requires 0 <= i < |group| => group[i].name)
  }

  /** A claim gives each channel of its group exactly one role. */
  ghost predicate Faithful(score: Scorer, k: nat) {
    forall group :: |group| == k && score(group).Some? ==>
      multiset(RoleNames(score(group).value)) == multiset(GroupNames(group))
  }

  function SpiScorer(strength: seq<bool> -> real): Scorer {
    group => SpiClaim(group, strength)
  }

  function I2cScorer(strength: seq<bool> -> real): Scorer {
    group => I2cClaim(group, strength)
  }

  /** Whatever the periodicity measure, SPI and I2C claims permute the names of their group, and
      a claim is made only at or above the threshold. */
  lemma {:induction false} RolesPermuteNames(strength: seq<bool> -> real)
    ensures Faithful(SpiScorer(strength), 3) && Faithful(I2cScorer(strength), 2)
    ensures forall group :: SpiClaim(group, strength).Some? ==>
      MULTI_CHANNEL_THRESHOLD <= SpiClaim(group, strength).value.confidence <= 1.0
    ensures forall group :: I2cClaim(group, strength).Some? ==>
      MULTI_CHANNEL_THRESHOLD <= I2cClaim(group, strength).value.confidence <= 1.0
  {
    hide ActiveWindow, Clip, Edges, HasStructure, Containment;
    forall group | |group| == 3 && SpiClaim(group, strength).Some?
      ensures multiset(RoleNames(SpiClaim(group, strength).value)) == multiset(GroupNames(group))
    {
      SpiPermutes(group, strength);
    }
    forall group | |group| == 2 && I2cClaim(group, strength).Some?
      ensures multiset(RoleNames(I2cClaim(group, strength).value)) == multiset(GroupNames(group))
    {
      I2cPermutes(group, strength);
    }
  }

  lemma SelectPermutes(a: Channel, b: Channel, c: Channel)
    ensures var (cs, x, y) := SelectOf(a, b, c);
      multiset{cs.name, x.name, y.name} == multiset{a.name, b.name, c.name}
  {
    hide Transitions;
  }

  lemma ClockPermutes(a: Channel, b: Channel, strength: seq<bool> -> real)
    ensures var roles := ClockOf(a, b, strength);
      multiset{roles.clock.name, roles.other.name} == multiset{a.name, b.name}
  {
    hide ActiveWindow, Clip;
  }

  lemma {:induction false} SpiPermutes(group: seq<Channel>, strength: seq<bool> -> real)
    requires |group| == 3 && SpiClaim(group, strength).Some?
    ensures multiset(RoleNames(SpiClaim(group, strength).value)) == multiset(GroupNames(group))
  {
    hide RoleNames, GroupNames, SelectOf, ClockOf, Containment, Clamp01;
    var (cs, x, y) := SelectOf(group[0], group[1], group[2]);
    var roles := ClockOf(x, y, strength);
    SelectPermutes(group[0], group[1], group[2]);
    ClockPermutes(x, y, strength);
    ThreeRoles(SpiClaim(group, strength).value, ("clk", roles.clock.name), ("cs", cs.name), ("data", roles.other.name));
    ThreeNames(group);
    Swap(roles.clock.name, cs.name, roles.other.name, x.name, y.name);
  }

  lemma ThreeRoles(claim: Claim, p: (string, string), q: (string, string), r: (string, string))
    requires claim.roles == [p, q, r]
    ensures multiset(RoleNames(claim)) == multiset{p.1, q.1, r.1}
  {
    assert RoleNames(claim) == [p.1, q.1, r.1];
  }

  lemma ThreeNames(group: seq<Channel>)
    requires |group| == 3
    ensures multiset(GroupNames(group)) == multiset{group[0].name, group[1].name, group[2].name}
  {
    assert GroupNames(group) == [group[0].name, group[1].name, group[2].name];
  }

  lemma Swap<T>(clock: T, cs: T, other: T, x: T, y: T)
    requires multiset{clock, other} == multiset{x, y}
    ensures multiset{clock, cs, other} == multiset{cs, x, y}
  {
    assert multiset{clock, cs, other} == multiset{clock, other} + multiset{cs};
    assert multiset{cs, x, y} == multiset{x, y} + multiset{cs};
  }

  lemma {:induction false} I2cPermutes(group: seq<Channel>, strength: seq<bool> -> real)
    requires |group| == 2 && I2cClaim(group, strength).Some?
    ensures multiset(RoleNames(I2cClaim(group, strength).value)) == multiset(GroupNames(group))
  {
    hide ActiveWindow, Clip, HasStructure;
    var roles := ClockOf(group[0], group[1], strength);
    assert RoleNames(I2cClaim(group, strength).value) == [roles.clock.name, roles.other.name];
    assert GroupNames(group) == [group[0].name, group[1].name];
  }

  // ---------------------------------------------------------------------------------------
  // No channel twice
  // ---------------------------------------------------------------------------------------

  ghost predicate NoRepeats(names: seq<string>) {
    forall i, j :: 0 <= i < j < |names| ==> names[i] != names[j]
  }

  /** Each claim names channels of the capture, none of them twice, and no two claims share one. */
  ghost predicate Exclusive(claims: seq<Claim>, names: set<string>) {
    && (forall i :: 0 <= i < |claims| ==> NoRepeats(RoleNames(claims[i])))
    && (forall i, name :: 0 <= i < |claims| && name in RoleNames(claims[i]) ==> name in names)
    && (forall i, j, name :: 0 <= i < j < |claims| && name in RoleNames(claims[i]) ==> name !in RoleNames(claims[j]))
  }

  lemma {:induction false} PermutationKeeps(a: seq<string>, b: seq<string>)
    requires multiset(a) == multiset(b) && NoRepeats(b)
    ensures NoRepeats(a)
    ensures forall name :: name in a <==> name in b
  {
    forall i, j | 0 <= i < j < |a| ensures a[i] != a[j] {
      if a[i] == a[j] {
        TwiceIn(a, i, j);
        OnceIn(b, a[i]);
        assert false;
      }
    }
    forall name ensures name in a <==> name in b {
      assert name in a <==> name in multiset(a);
      assert name in b <==> name in multiset(b);
    }
  }

  lemma {:induction false} TwiceIn(a: seq<string>, i: int, j: int)
    requires 0 <= i < j < |a| && a[i] == a[j]
    ensures multiset(a)[a[i]] >= 2
  {
    assert a == a[..j] + [a[j]] + a[j + 1..];
    assert a[i] in a[..j];
    assert multiset(a[..j])[a[i]] >= 1;
  }

  lemma {:induction false} OnceIn(b: seq<string>, name: string)
    requires NoRepeats(b)
    ensures multiset(b)[name] <= 1
  {
    if b != [] {
      var n := |b| - 1;
      assert b == b[..n] + [b[n]];
      OnceIn(b[..n], name);
      if b[n] == name {
        assert name !in b[..n];
      }
    }
  }

  lemma {:induction false} ClaimOfGroup(choice: Choice, k: nat, score: Scorer)
    requires Faithful(score, k) && |choice.group| == k && Distinct(choice.group)
    requires score(choice.group) == Some(choice.claim)
    ensures NoRepeats(RoleNames(choice.claim))
    ensures forall name :: name in RoleNames(choice.claim) <==> name in Names(choice.group)
  {
    var names := GroupNames(choice.group);
    PermutationKeeps(RoleNames(choice.claim), names);
    forall name ensures name in names <==> name in Names(choice.group) {
      if name in Names(choice.group) {
        var i :| 0 <= i < |choice.group| && choice.group[i].name == name;
        assert names[i] == name;
      }
    }
  }

  ghost predicate NamesItsGroup(choice: Choice) {
    && NoRepeats(RoleNames(choice.claim))
    && forall name :: name in RoleNames(choice.claim) <==> name in Names(choice.group)
  }

  lemma {:induction false} AllNameTheirGroups(choices: seq<Choice>, k: nat, score: Scorer)
    requires Faithful(score, k) && Groups(choices, k) && Scored(choices, score)
    ensures forall i :: 0 <= i < |choices| ==> NamesItsGroup(choices[i])
  {
    hide Faithful, NoRepeats, Distinct;
    forall i | 0 <= i < |choices| ensures NamesItsGroup(choices[i]) {
      ClaimOfGroup(choices[i], k, score);
    }
  }

  lemma {:induction false} ApartIsExclusive(choices: seq<Choice>, names: set<string>)
    requires Apart(choices)
    requires forall i :: 0 <= i < |choices| ==> NamesItsGroup(choices[i]) && Names(choices[i].group) <= names
    ensures Exclusive(ClaimsOf(choices), names)
  {
    hide Names, NoRepeats, RoleNames;
  }

  /** The classifier's guarantee: for every periodicity measure and every single-channel scorer
      that names its channel, no channel appears twice, within a claim or across claims. */
  lemma {:induction false} ClassificationIsExclusive(channels: seq<Channel>, strength: seq<bool> -> real,
                                                     single: Scorer)
    requires Distinct(channels) && Faithful(single, 1)
    ensures Exclusive(ClaimsOf(Choices(channels, SpiScorer(strength), I2cScorer(strength), single)), Names(channels))
  {
    hide Greedy, Names, Singles, Distinct, NamesOf, Apart, Faithful, NamesItsGroup, SpiScorer, I2cScorer, Exclusive;
    var triple, pair := SpiScorer(strength), I2cScorer(strength);
    var choices := Choices(channels, triple, pair, single);
    ChoicesApart(channels, triple, pair, single);
    RolesPermuteNames(strength);
    ChoicesNameTheirGroups(channels, triple, pair, single);
    ApartIsExclusive(choices, Names(channels));
  }

  lemma {:induction false} ChoicesNameTheirGroups(channels: seq<Channel>, triple: Scorer, pair: Scorer, single: Scorer)
    requires Distinct(channels) && Faithful(triple, 3) && Faithful(pair, 2) && Faithful(single, 1)
    ensures forall i :: 0 <= i < |Choices(channels, triple, pair, single)| ==>
      NamesItsGroup(Choices(channels, triple, pair, single)[i])
  {
    hide Greedy, Names, Singles, Distinct, NamesOf, Apart, Faithful, NamesItsGroup;
    var triples := Greedy(channels, 3, triple);
    var pairs := Greedy(triples.rest, 2, pair);
    PhasePartitions(channels, 3, triple);
    PhasePartitions(triples.rest, 2, pair);
    SinglesApart(pairs.rest, single);
    AllNameTheirGroups(triples.choices, 3, triple);
    AllNameTheirGroups(pairs.choices, 2, pair);
    AllNameTheirGroups(Singles(pairs.rest, single), 1, single);
  }
}
