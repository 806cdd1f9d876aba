/**
 * `greedyPairGroup` of logic.js: pairs one loss bracket. An odd bracket of more
 * than one competitor first sets aside a bye candidate with the most wins; the
 * rest is shuffled and paired greedily in up to `min(100, 10 + 5n)` trials, the
 * trial with the fewest conflicts is kept, and the bounded local improvement
 * runs on its pairings before the bye pairing is appended.
 *
 * The random source is the injected choice stream of the Shuffle module; the
 * trials draw from it one after another.
 */
module GroupPairing {
  import opened Wrappers
  import opened Records
  import opened Sorting
  import opened Shuffle
  import opened Matcher
  import opened Improvement

  // ---------------------------------------------------------------------------
  // The bye candidate and the working set
  // ---------------------------------------------------------------------------

  /** The comparator `(a, b) => a.wins - b.wins`: `a` may stand before `b`. */
  predicate WinsLe(a: Competitor, b: Competitor)
  {
    a.wins <= b.wins
  }

  lemma WinsLeTotalPreorder()
    ensures TotalPreorder(WinsLe)
  {
  }

  /**
   * The bye candidate: for a bracket of odd size above one, the last entry of
   * the bracket sorted by ascending wins.
   */
  function ByeCandidate(group: seq<Competitor>): Option<Competitor>
  {
    if |group| > 1 && |group| % 2 != 0 then
      var sortedGroup := SortBy(group, WinsLe);
      Some(sortedGroup[|sortedGroup| - 1])
    else None
  }

  /** The bracket without the bye candidate: `working.filter(c => c.name !== byeCandidate.name)`. */
  function Working(group: seq<Competitor>): seq<Competitor>
  {
    match ByeCandidate(group)
    case None => group
    case Some(c) => WithoutName(group, c.name)
  }

  /** The pairing appended for the bye candidate, if there is one. */
  function ByePairing(group: seq<Competitor>): seq<Pairing>
  {
    match ByeCandidate(group)
    case None => []
    case Some(c) => [Match(c.name, Bye)]
  }

  /** There is a bye candidate exactly for an odd bracket of more than one; it belongs to the bracket and has the most wins. */
  lemma ByeCandidateHasMostWins(group: seq<Competitor>)
    ensures ByeCandidate(group).Some? <==> |group| > 1 && |group| % 2 == 1
    ensures ByeCandidate(group).Some? ==>
              var c := ByeCandidate(group).value;
              c in group && forall d :: d in group ==> d.wins <= c.wins
    ensures ByeCandidate(group).Some? ==>
              var c := ByeCandidate(group).value;
              exists k :: 0 <= k < |group| && group[k] == c &&
                forall j :: k < j < |group| ==> group[j].wins < c.wins
  {
    if |group| > 1 && |group| % 2 == 1 {
      var s := SortBy(group, WinsLe);
      var c := s[|s| - 1];
      WinsLeTotalPreorder();
      SortBySorted(group, WinsLe);
      assert c in multiset(s);
      forall d | d in group ensures d.wins <= c.wins {
        assert d in multiset(s);
        var k :| 0 <= k < |s| && s[k] == d;
        if k < |s| - 1 {
          assert WinsLe(s[k], s[|s| - 1]);
        }
      }
      ByeCandidateIsLast(group, c);
    }
  }

  /** Among the members with the most wins, the bye goes to the last in group order. */
  lemma ByeCandidateIsLast(group: seq<Competitor>, c: Competitor)
    requires |group| > 1 && |group| % 2 == 1 && c == SortBy(group, WinsLe)[|group| - 1]
    requires forall d :: d in group ==> d.wins <= c.wins
    ensures exists k :: 0 <= k < |group| && group[k] == c &&
              forall j :: k < j < |group| ==> group[j].wins < c.wins
  {
    WinsLeTotalPreorder();
    var k := SortByLastIsLastTied(group, WinsLe);
    NoTieBehindMeansFewerWins(group, c, k);
  }

  lemma NoTieBehindMeansFewerWins(group: seq<Competitor>, c: Competitor, k: nat)
    requires k < |group| && group[k] == c
    requires forall j :: k < j < |group| ==> !Tie(WinsLe, group[j], c)
    requires forall d :: d in group ==> d.wins <= c.wins
    ensures forall j :: k < j < |group| ==> group[j].wins < c.wins
  {
    forall j | k < j < |group| ensures group[j].wins < c.wins {
      assert group[j] in group;
    }
  }

  // ---------------------------------------------------------------------------
  // The trials
  // ---------------------------------------------------------------------------

  /** `Math.min(100, 10 + working.length * 5)`: never fewer than 10 trials. */
  function Tries(n: nat): (t: nat)
    ensures 10 <= t <= 100
    ensures n <= 18 ==> t == 10 + 5 * n
    ensures n > 18 ==> t == 100
  {
    if 10 + 5 * n < 100 then 10 + 5 * n else 100
  }

  /** The best-so-far record of the loop. */
  datatype Trial = Trial(pairs: seq<Pairing>, conflicts: nat)

  /*
   * The trial loop is stated over `trial`, the outcome of one trial on a
   * stream, and `next`, the stream that trial leaves; `greedyPairGroup`
   * instantiates them with the shuffle and the greedy pairing.
   */

  /** The choice stream at the start of trial `k`: each trial draws its choices in turn. */
  function StreamAt(next: seq<nat> -> seq<nat>, src: seq<nat>, k: nat): seq<nat>
  {
    if k == 0 then src else next(StreamAt(next, src, k - 1))
  }

  /** Trial `k`. */
  function TrialAt(trial: seq<nat> -> Trial, next: seq<nat> -> seq<nat>, src: seq<nat>, k: nat): Trial
  {
    trial(StreamAt(next, src, k))
  }

  /** The conflict counts of the first `n` trials, had they all been run. */
  function Counts(trial: seq<nat> -> Trial, next: seq<nat> -> seq<nat>, src: seq<nat>, n: nat): (cs: seq<nat>)
    ensures |cs| == n
  {
    if n == 0 then [] else Counts(trial, next, src, n - 1) + [TrialAt(trial, next, src, n - 1).conflicts]
  }

  lemma {:induction false} CountsAt(trial: seq<nat> -> Trial, next: seq<nat> -> seq<nat>, src: seq<nat>, n: nat, k: nat)
    requires k < n
    ensures Counts(trial, next, src, n)[k] == TrialAt(trial, next, src, k).conflicts
  {
    if k < n - 1 {
      CountsAt(trial, next, src, n - 1, k);
    }
  }

  /**
   * The selection of the trial loop over the counts `cs` from trial `t` on,
   * with `chosen` the best trial so far: a trial replaces the best one when it
   * has strictly fewer conflicts, and a replacement without conflicts stops the
   * loop. The result is the chosen trial and the number of trials run.
   */
  function Select(cs: seq<nat>, t: nat, chosen: Option<nat>): (Option<nat>, nat)
    requires chosen.Some? ==> chosen.value < |cs|
    decreases |cs| - t
  {
    if t >= |cs| then (chosen, t)
    else if chosen.None? || cs[t] < cs[chosen.value] then
      if cs[t] == 0 then (Some(t), t + 1) else Select(cs, t + 1, Some(t))
    else Select(cs, t + 1, chosen)
  }

  /** `k` is the first minimum of `cs[..n]`. */
  ghost predicate FirstMinimum(cs: seq<nat>, n: nat, k: nat)
    requires n <= |cs|
  {
    k < n && (forall i :: 0 <= i < n ==> cs[k] <= cs[i]) && (forall i :: 0 <= i < k ==> cs[k] < cs[i])
  }

  lemma {:induction false} SelectFrom(cs: seq<nat>, t: nat, chosen: Option<nat>)
    requires t <= |cs|
    requires chosen.None? <==> t == 0
    requires chosen.Some? ==> FirstMinimum(cs, t, chosen.value)
    requires forall i :: 0 <= i < t ==> cs[i] > 0
    ensures var (c, ran) := Select(cs, t, chosen);
            t <= ran <= |cs| && (t < |cs| ==> t < ran)
            && (c.None? <==> ran == 0)
            && (c.Some? ==> FirstMinimum(cs, ran, c.value))
            && (forall i :: 0 <= i < ran - 1 ==> cs[i] > 0)
            && (ran < |cs| ==> 0 < ran && cs[ran - 1] == 0)
    decreases |cs| - t
  {
    if t < |cs| {
      if chosen.None? || cs[t] < cs[chosen.value] {
        if cs[t] != 0 {
          SelectFrom(cs, t + 1, Some(t));
        }
      } else {
        SelectFrom(cs, t + 1, chosen);
      }
    }
  }

  /**
   * The trial loop picks the first trial with the fewest conflicts among those
   * it runs, runs at least one, and stops early only right after a trial
   * without conflicts; no trial before the last one run has none.
   */
  lemma TrialSelection(cs: seq<nat>)
    requires |cs| > 0
    ensures var (c, ran) := Select(cs, 0, None);
            1 <= ran <= |cs|
            && c.Some? && FirstMinimum(cs, ran, c.value)
            && (forall i :: 0 <= i < ran - 1 ==> cs[i] > 0)
            && (ran < |cs| ==> c.value == ran - 1 && cs[ran - 1] == 0)
  {
    SelectFrom(cs, 0, None);
    var (c, ran) := Select(cs, 0, None);
    if ran < |cs| {
      assert cs[c.value] <= cs[ran - 1] == 0;
      assert !(c.value < ran - 1);
    }
  }

  /**
   * The trial loop from trial `t` of `tries` on, with the stream `rng` and the
   * best trial so far: the final best trial and the rest of the stream.
   */
  function TrialLoop(trial: seq<nat> -> Trial, next: seq<nat> -> seq<nat>, rng: seq<nat>, t: nat, tries: nat, best: Option<Trial>): (Option<Trial>, seq<nat>)
    decreases tries - t
  {
    if t >= tries then (best, rng)
    else
      var current := trial(rng);
      if best.None? || current.conflicts < best.value.conflicts then
        if current.conflicts == 0 then (Some(current), next(rng))
        else TrialLoop(trial, next, next(rng), t + 1, tries, Some(current))
      else TrialLoop(trial, next, next(rng), t + 1, tries, best)
  }

  /** The trial chosen by index, as the loop records it. */
  function Chosen(trial: seq<nat> -> Trial, next: seq<nat> -> seq<nat>, src: seq<nat>, c: Option<nat>): Option<Trial>
  {
    if c.None? then None else Some(TrialAt(trial, next, src, c.value))
  }

  /** The loop from trial `t` on keeps the trial that `Select` chooses and stops where it stops. */
  lemma {:induction false} TrialLoopSelects(trial: seq<nat> -> Trial, next: seq<nat> -> seq<nat>, src: seq<nat>, n: nat, t: nat, chosen: Option<nat>)
    requires t <= n
    requires chosen.Some? ==> chosen.value < t
    ensures var sel := Select(Counts(trial, next, src, n), t, chosen);
            TrialLoop(trial, next, StreamAt(next, src, t), t, n, Chosen(trial, next, src, chosen))
              == (Chosen(trial, next, src, sel.0), StreamAt(next, src, sel.1))
    decreases n - t
  {
    var cs := Counts(trial, next, src, n);
    var s := StreamAt(next, src, t);
    var best := Chosen(trial, next, src, chosen);
    if t < n {
      CountsAt(trial, next, src, n, t);
      if chosen.Some? {
        CountsAt(trial, next, src, n, chosen.value);
      }
      assert next(s) == StreamAt(next, src, t + 1);
      if chosen.None? || cs[t] < cs[chosen.value] {
        if cs[t] != 0 {
          TrialLoopSelects(trial, next, src, n, t + 1, Some(t));
        }
      } else {
        TrialLoopSelects(trial, next, src, n, t + 1, chosen);
      }
    }
  }

  // ---------------------------------------------------------------------------
  // The trials of a working set
  // ---------------------------------------------------------------------------

  /** One trial on the stream `s`: the greedy pairing of the shuffled working set. */
  function TrialFrom(w: seq<Competitor>, s: seq<nat>): Trial
  {
    var g := GreedyPairs(FisherYates(w, s).0);
    Trial(g.0, g.1)
  }

  function TrialOn(w: seq<Competitor>): seq<nat> -> Trial
  {
    s => TrialFrom(w, s)
  }

  /** The stream a shuffle of the working set leaves. */
  function NextOn(w: seq<Competitor>): seq<nat> -> seq<nat>
  {
    s => FisherYates(w, s).1
  }

  /** The trial loop of `greedyPairGroup` on the working set `w`, from trial `t` of `tries` on. */
  function GroupTrials(w: seq<Competitor>, rng: seq<nat>, t: nat, tries: nat, best: Option<Trial>): (Option<Trial>, seq<nat>)
    decreases tries - t
  {
    if t >= tries then (best, rng)
    else
      var current := TrialFrom(w, rng);
      var next := FisherYates(w, rng).1;
      if best.None? || current.conflicts < best.value.conflicts then
        if current.conflicts == 0 then (Some(current), next)
        else GroupTrials(w, next, t + 1, tries, Some(current))
      else GroupTrials(w, next, t + 1, tries, best)
  }

  /** One round of the loop on a working set. */
  lemma GroupTrialsStep(w: seq<Competitor>, rng: seq<nat>, t: nat, tries: nat, best: Option<Trial>)
    requires t < tries
    ensures var current := TrialFrom(w, rng);
            var next := FisherYates(w, rng).1;
            var better := best.None? || current.conflicts < best.value.conflicts;
            GroupTrials(w, rng, t, tries, best)
              == if better && current.conflicts == 0 then (Some(current), next)
                 else GroupTrials(w, next, t + 1, tries, if better then Some(current) else best)
  {
  }

  /** The loop on a working set is the trial loop with the shuffle and the greedy pairing as its trial. */
  lemma {:induction false} GroupTrialsIsTrialLoop(w: seq<Competitor>, rng: seq<nat>, t: nat, tries: nat, best: Option<Trial>)
    ensures GroupTrials(w, rng, t, tries, best) == TrialLoop(TrialOn(w), NextOn(w), rng, t, tries, best)
    decreases tries - t
  {
    if t < tries {
      var current := TrialFrom(w, rng);
      var next := FisherYates(w, rng).1;
      assert TrialOn(w)(rng) == current;
      assert NextOn(w)(rng) == next;
      if best.None? || current.conflicts < best.value.conflicts {
        if current.conflicts != 0 {
          GroupTrialsIsTrialLoop(w, next, t + 1, tries, Some(current));
        }
      } else {
        GroupTrialsIsTrialLoop(w, next, t + 1, tries, best);
      }
    }
  }

  /** The best trial of `greedyPairGroup` and the rest of the stream after the trials. */
  function Trials(w: seq<Competitor>, src: seq<nat>): (Option<Trial>, seq<nat>)
  {
    GroupTrials(w, src, 0, Tries(|w|), None)
  }

  /** The chosen trial and the number of trials run. */
  function Selection(w: seq<Competitor>, src: seq<nat>): (Option<nat>, nat)
  {
    Select(Counts(TrialOn(w), NextOn(w), src, Tries(|w|)), 0, None)
  }

  /** The trials keep the trial `Select` chooses over the conflict counts and stop where it stops. */
  lemma TrialsSelect(w: seq<Competitor>, src: seq<nat>)
    ensures Trials(w, src)
              == (Chosen(TrialOn(w), NextOn(w), src, Selection(w, src).0), StreamAt(NextOn(w), src, Selection(w, src).1))
  {
    GroupTrialsIsTrialLoop(w, src, 0, Tries(|w|), None);
    TrialLoopSelects(TrialOn(w), NextOn(w), src, Tries(|w|), 0, None);
  }

  // ---------------------------------------------------------------------------
  // The whole group
  // ---------------------------------------------------------------------------

  /** The specification of `greedyPairGroup(group, {rng})`: its pairings and the rest of the stream. */
  function GroupPairs(group: seq<Competitor>, src: seq<nat>): (seq<Pairing>, seq<nat>)
  {
    var (best, rest) := Trials(Working(group), src);
    var pairs := if best.Some? then best.value.pairs else [];
    (Improved(pairs, TeamMap(group), Budget(|pairs|)) + ByePairing(group), rest)
  }

  /** `teamMap` filled by `group.forEach(c => { teamMap[c.name] = c.team || "" })`. */
  method BuildTeamMap(group: seq<Competitor>) returns (tm: map<string, string>)
    ensures tm == TeamMap(group)
  {
    tm := map[];
    var i := 0;
    while i < |group|
      invariant i <= |group|
      invariant tm == TeamMap(group[..i])
    {
      assert group[..i + 1][..i] == group[..i];
      tm := tm[group[i].name := group[i].team];
      i := i + 1;
    }
    assert group[..|group|] == group;
  }

  /** One trial: `trial = working.slice(); shuffleArray(trial, rng); buildPairsFromOrder(trial)`. */
  method OneTrial(working: seq<Competitor>, rng: seq<nat>) returns (trial: Trial, rest: seq<nat>)
    ensures trial == TrialFrom(working, rng)
    ensures rest == FisherYates(working, rng).1
  {
    var order := new Competitor[|working|](i requires 0 <= i < |working| => working[i]);
    assert order[..] == working;
    rest := ShuffleArray(order, rng);
    var resultPairs, conflicts := BuildPairsFromOrder(order[..]);
    trial := Trial(resultPairs, conflicts);
  }

  /** The trial loop of `greedyPairGroup`: shuffle a copy, pair it greedily, keep the best. */
  method RunTrials(working: seq<Competitor>, src: seq<nat>) returns (best: Option<Trial>, rng: seq<nat>)
    ensures (best, rng) == Trials(working, src)
  {
    var tries := Tries(|working|);
    ghost var goal := Trials(working, src);
    best := None;
    rng := src;
    var t := 0;
    while t < tries
      invariant t <= tries
      invariant GroupTrials(working, rng, t, tries, best) == goal
      decreases tries - t
    {
      GroupTrialsStep(working, rng, t, tries, best);
      var trial;
      trial, rng := OneTrial(working, rng);
      if best.None? || trial.conflicts < best.value.conflicts {
        best := Some(trial);
        if trial.conflicts == 0 {
          break;
        }
      }
      t := t + 1;
    }
  }

  /** `greedyPairGroup(group, {rng})`. */
  method GreedyPairGroup(group: seq<Competitor>, src: seq<nat>) returns (pairs: seq<Pairing>, rest: seq<nat>)
    ensures (pairs, rest) == GroupPairs(group, src)
  {
    var byeCandidate: Option<Competitor> := None;
    var working := group;
    if |working| > 1 && |working| % 2 != 0 {
      var sortedGroup := SortBy(working, WinsLe);
      byeCandidate := Some(sortedGroup[|sortedGroup| - 1]);
      working := WithoutName(working, byeCandidate.value.name);
    }
    assert byeCandidate == ByeCandidate(group);
    assert working == Working(group);
    var best, rng := RunTrials(working, src);
    var bestPairs := if best.Some? then best.value.pairs else [];
    var tm := BuildTeamMap(group);
    var ps := new Pairing[|bestPairs|](i requires 0 <= i < |bestPairs| => bestPairs[i]);
    assert ps[..] == bestPairs;
    Improve(ps, tm);
    pairs := ps[..];
    assert pairs == Improved(bestPairs, TeamMap(group), Budget(|bestPairs|));
    if byeCandidate.Some? {
      pairs := pairs + [Match(byeCandidate.value.name, Bye)];
    }
    assert pairs == Improved(bestPairs, TeamMap(group), Budget(|bestPairs|)) + ByePairing(group);
    rest := rng;
  }

  // ---------------------------------------------------------------------------
  // What the trials keep
  // ---------------------------------------------------------------------------

  /**
   * With at least one trial to run, the loop keeps trial `k` of the `ran` it
   * runs: the first with the fewest conflicts. It stops before the last trial
   * only right after a trial without conflicts, which is then the one kept, and
   * no earlier trial is without conflicts.
   */
  lemma LoopChoice(trial: seq<nat> -> Trial, next: seq<nat> -> seq<nat>, src: seq<nat>, n: nat) returns (k: nat, ran: nat)
    requires n > 0
    ensures ran == Select(Counts(trial, next, src, n), 0, None).1
    ensures k < ran <= n
    ensures TrialLoop(trial, next, src, 0, n, None) == (Some(TrialAt(trial, next, src, k)), StreamAt(next, src, ran))
    ensures forall i :: 0 <= i < ran ==> TrialAt(trial, next, src, k).conflicts <= TrialAt(trial, next, src, i).conflicts
    ensures forall i :: 0 <= i < k ==> TrialAt(trial, next, src, k).conflicts < TrialAt(trial, next, src, i).conflicts
    ensures forall i :: 0 <= i < ran - 1 ==> TrialAt(trial, next, src, i).conflicts > 0
    ensures ran < n ==> k == ran - 1 && TrialAt(trial, next, src, k).conflicts == 0
  {
    var cs := Counts(trial, next, src, n);
    TrialLoopSelects(trial, next, src, n, 0, None);
    TrialSelection(cs);
    k, ran := Select(cs, 0, None).0.value, Select(cs, 0, None).1;
    forall i | 0 <= i < ran
      ensures cs[i] == TrialAt(trial, next, src, i).conflicts
    {
      CountsAt(trial, next, src, n, i);
    }
  }

  /**
   * The trials on a working set keep the greedy pairing of one shuffle of it,
   * so `best` is never null after the loop; the kept trial has the fewest
   * conflicts of the trials run.
   */
  lemma TrialsChoice(w: seq<Competitor>, src: seq<nat>) returns (k: nat, ran: nat)
    ensures ran == Selection(w, src).1
    ensures k < ran <= Tries(|w|)
    ensures Trials(w, src) == (Some(TrialFrom(w, StreamAt(NextOn(w), src, k))), StreamAt(NextOn(w), src, ran))
    ensures forall i :: 0 <= i < ran ==>
              TrialFrom(w, StreamAt(NextOn(w), src, k)).conflicts <= TrialFrom(w, StreamAt(NextOn(w), src, i)).conflicts
  {
    GroupTrialsIsTrialLoop(w, src, 0, Tries(|w|), None);
    k, ran := LoopChoice(TrialOn(w), NextOn(w), src, Tries(|w|));
    forall i | 0 <= i < ran
      ensures TrialAt(TrialOn(w), NextOn(w), src, i) == TrialFrom(w, StreamAt(NextOn(w), src, i))
    {
    }
  }

  /** The kept pairing is the greedy pairing of a permutation of the working set. */
  lemma ChosenOrder(w: seq<Competitor>, src: seq<nat>) returns (order: seq<Competitor>)
    ensures |order| == |w| && multiset(order) == multiset(w)
    ensures Trials(w, src).0 == Some(Trial(GreedyPairs(order).0, GreedyPairs(order).1))
  {
    var k, ran := TrialsChoice(w, src);
    var s := StreamAt(NextOn(w), src, k);
    order := FisherYates(w, s).0;
    FisherYatesPermutes(w, s);
  }

  // ---------------------------------------------------------------------------
  // Properties of a group's pairings
  // ---------------------------------------------------------------------------

  /** With unique names, filtering out the name of one member removes exactly that member. */
  lemma SetAside(group: seq<Competitor>, k: nat)
    requires UniqueNames(group) && k < |group|
    ensures var w := WithoutName(group, group[k].name);
            multiset(Names(group)) == multiset(Names(w)) + multiset{group[k].name}
            && |w| + 1 == |group|
            && forall c :: c in w ==> c in group
  {
    WithoutNameRemovesOne(group, k);
    NamesSplit(group, k);
    WithoutNameMembers(group, group[k].name);
  }

  /**
   * With unique names, setting the bye candidate aside removes exactly that
   * competitor: the bracket's names are the working set's and the bye's.
   */
  lemma WorkingParts(group: seq<Competitor>)
    requires UniqueNames(group)
    ensures multiset(Names(group)) == multiset(Names(Working(group))) + Participants(ByePairing(group))
    ensures |Working(group)| + |ByePairing(group)| == |group|
    ensures |ByePairing(group)| == if |group| > 1 && |group| % 2 == 1 then 1 else 0
    ensures forall c :: c in Working(group) ==> c in group
  {
    ByeCandidateHasMostWins(group);
    match ByeCandidate(group)
    case None =>
      assert Participants([]) == multiset{};
    case Some(c) =>
      var k :| 0 <= k < |group| && group[k] == c;
      SetAside(group, k);
      var bye := [Match(c.name, Bye)];
      assert bye[..0] == [];
      assert Participants(bye) == multiset{c.name};
  }

  /** The improved greedy pairing of an order: its length, its bye, its names, its freshness. */
  lemma ImprovedGreedy(order: seq<Competitor>, tm: map<string, string>) returns (imp: seq<Pairing>)
    ensures imp == Improved(GreedyPairs(order).0, tm, Budget(|GreedyPairs(order).0|))
    ensures |imp| == (|order| + 1) / 2 && ByeOnlyLast(imp, |order| % 2 == 1)
    ensures Participants(imp) == multiset(Names(order))
    ensures AllFresh(imp)
  {
    var g := GreedyPairs(order).0;
    imp := Improved(g, tm, Budget(|g|));
    GreedyByeLast(order);
    GreedyLength(order);
    ImprovedKeepsByes(g, tm, Budget(|g|));
    ByeOnlyLastKept(g, imp, |order| % 2 == 1);
    GreedyCovers(order);
    ImprovedKeepsParticipants(g, tm, Budget(|g|));
    GreedyFresh(order);
    ImprovedKeepsFresh(g, tm, Budget(|g|));
  }

  /** The bye positions of `imp` are those of `g`. */
  lemma ByeOnlyLastKept(g: seq<Pairing>, imp: seq<Pairing>, odd: bool)
    requires ByeOnlyLast(g, odd) && |imp| == |g|
    requires forall k :: 0 <= k < |g| ==> (imp[k].comp2.Bye? <==> g[k].comp2.Bye?)
    ensures ByeOnlyLast(imp, odd)
  {
  }

  /** The pairings of a group before the bye is appended, and what the trials and the improvement keep of the working set. */
  lemma KeptPairs(group: seq<Competitor>, src: seq<nat>) returns (imp: seq<Pairing>)
    ensures GroupPairs(group, src).0 == imp + ByePairing(group)
    ensures |imp| == (|Working(group)| + 1) / 2 && ByeOnlyLast(imp, |Working(group)| % 2 == 1)
    ensures Participants(imp) == multiset(Names(Working(group)))
    ensures AllFresh(imp)
  {
    var order := ChosenOrder(Working(group), src);
    imp := ImprovedGreedy(order, TeamMap(group));
    NamesPermutation(order, Working(group));
  }

  /** Every member of a bracket with unique names is seated exactly once. */
  lemma GroupCovers(group: seq<Competitor>, src: seq<nat>)
    requires UniqueNames(group)
    ensures Participants(GroupPairs(group, src).0) == multiset(Names(group))
  {
    var imp := KeptPairs(group, src);
    ParticipantsConcat(imp, ByePairing(group));
    WorkingParts(group);
  }

  /** No pairing of a bracket with unique names seats a competitor against itself. */
  lemma GroupNoSelfPairs(group: seq<Competitor>, src: seq<nat>)
    requires UniqueNames(group)
    ensures NoSelfPairs(GroupPairs(group, src).0)
  {
    GroupCovers(group, src);
    UniqueNamesAtMostOnce(group);
    NoSelfPairsFromParticipants(GroupPairs(group, src).0);
  }

  /** Appending a bye to pairings without one. */
  lemma ByeOnlyLastAppend(ps: seq<Pairing>, m: Pairing)
    requires ByeOnlyLast(ps, false) && m.comp2.Bye?
    ensures ByeOnlyLast(ps + [m], true)
  {
    var r := ps + [m];
    forall k | 0 <= k < |r|
      ensures r[k].comp2.Bye? <==> k == |r| - 1
    {
      if k < |ps| {
        assert r[k] == ps[k];
      }
    }
  }

  /** The pairings of the working set, `imp`, followed by the bye pairing of a bracket of `n`. */
  lemma ByesAppended(imp: seq<Pairing>, bye: seq<Pairing>, w: nat, n: nat)
    requires ByeOnlyLast(imp, w % 2 == 1) && |imp| == (w + 1) / 2
    requires w + |bye| == n && |bye| == (if n > 1 && n % 2 == 1 then 1 else 0)
    requires bye != [] ==> bye[0].comp2.Bye?
    ensures |imp + bye| == (n + 1) / 2 && ByeOnlyLast(imp + bye, n % 2 == 1)
  {
    if bye == [] {
      assert imp + bye == imp;
    } else {
      assert w % 2 == 0;
      assert bye == [bye[0]];
      ByeOnlyLastAppend(imp, bye[0]);
    }
  }

  /**
   * A bracket of `n` competitors with unique names gets `(n + 1) / 2` pairings,
   * and there is a bye exactly when `n` is odd, as the last pairing.
   */
  lemma GroupByes(group: seq<Competitor>, src: seq<nat>)
    requires UniqueNames(group)
    ensures var ps := GroupPairs(group, src).0;
            |ps| == (|group| + 1) / 2 && ByeOnlyLast(ps, |group| % 2 == 1)
  {
    var imp := KeptPairs(group, src);
    WorkingParts(group);
    ByesAppended(imp, ByePairing(group), |Working(group)|, |group|);
  }

  /** In an odd bracket of more than one, the bye goes to the bye candidate, who has the most wins. */
  lemma GroupByeToCandidate(group: seq<Competitor>, src: seq<nat>)
    requires |group| > 1 && |group| % 2 == 1
    ensures var ps := GroupPairs(group, src).0;
            |ps| > 0 && ps[|ps| - 1] == Match(ByeCandidate(group).value.name, Bye)
  {
    var imp := KeptPairs(group, src);
    ByeCandidateHasMostWins(group);
    var bye := [Match(ByeCandidate(group).value.name, Bye)];
    assert ByePairing(group) == bye;
    assert (imp + bye)[|imp|] == bye[0];
  }

  /** Appending fresh pairings to fresh pairings. */
  lemma AllFreshConcat(a: seq<Pairing>, b: seq<Pairing>)
    requires AllFresh(a) && AllFresh(b)
    ensures AllFresh(a + b)
  {
    forall k | 0 <= k < |a + b|
      ensures (a + b)[k].selected == "" && !(a + b)[k].applied
    {
      if k >= |a| {
        assert (a + b)[k] == b[k - |a|];
      }
    }
  }

  /** The pairings of a group are fresh: nothing selected, nothing applied. */
  lemma GroupFresh(group: seq<Competitor>, src: seq<nat>)
    ensures AllFresh(GroupPairs(group, src).0)
  {
    var imp := KeptPairs(group, src);
    AllFreshConcat(imp, ByePairing(group));
  }

  /** A bracket of one competitor gets exactly the bye pairing. */
  lemma GroupSingleton(c: Competitor, src: seq<nat>)
    ensures GroupPairs([c], src).0 == [Match(c.name, Bye)]
  {
    var ps := GroupPairs([c], src).0;
    GroupByes([c], src);
    GroupCovers([c], src);
    GroupFresh([c], src);
    assert ps == [ps[0]];
    assert Participants(ps) == Participants(ps[..0]) + Seated(ps[0]);
    assert Names([c]) == [c.name];
  }

  /** The improvement keeps the score of the greedy pairing at most its conflict count. */
  lemma ImprovedGreedyScore(order: seq<Competitor>, tm: map<string, string>)
    requires TeamsAgree(order, tm)
    ensures var g := GreedyPairs(order).0;
            TotalScore(Improved(g, tm, Budget(|g|)), tm) <= GreedyPairs(order).1
  {
    var g := GreedyPairs(order).0;
    GreedyConflictsCount(order, tm);
    ScoreAtMostSameTeam(g, tm);
    ImprovedScore(g, tm, Budget(|g|));
  }

  /** A team map that records the teams of a working set records those of every shuffle of it. */
  lemma TeamsAgreePermutation(order: seq<Competitor>, w: seq<Competitor>, tm: map<string, string>)
    requires multiset(order) == multiset(w) && TeamsAgree(w, tm)
    ensures TeamsAgree(order, tm)
  {
    forall c | c in order
      ensures c in w
    {
      assert c in multiset(w);
    }
  }

  /**
   * When the team map records the working set's teams, the improved pairing of
   * the kept trial scores at most the conflict count of every trial run.
   */
  lemma BestTrialScore(w: seq<Competitor>, src: seq<nat>, tm: map<string, string>) returns (ran: nat)
    requires TeamsAgree(w, tm)
    ensures ran == Selection(w, src).1
    ensures 1 <= ran <= Tries(|w|) && Trials(w, src).0.Some?
    ensures var g := Trials(w, src).0.value.pairs;
            forall i :: 0 <= i < ran ==>
              TotalScore(Improved(g, tm, Budget(|g|)), tm) <= TrialFrom(w, StreamAt(NextOn(w), src, i)).conflicts
  {
    var k;
    k, ran := TrialsChoice(w, src);
    var s := StreamAt(NextOn(w), src, k);
    var order := FisherYates(w, s).0;
    FisherYatesPermutes(w, s);
    TeamsAgreePermutation(order, w, tm);
    ImprovedGreedyScore(order, tm);
  }

  /**
   * A bracket's pairings score what the improved kept trial scores: the bye
   * pairing appended behind it scores nothing.
   */
  lemma GroupPairsScore(group: seq<Competitor>, src: seq<nat>)
    requires Trials(Working(group), src).0.Some?
    ensures var g := Trials(Working(group), src).0.value.pairs;
            TotalScore(GroupPairs(group, src).0, TeamMap(group))
              == TotalScore(Improved(g, TeamMap(group), Budget(|g|)), TeamMap(group))
  {
    var w := Working(group);
    var tm := TeamMap(group);
    var g := Trials(w, src).0.value.pairs;
    var imp := Improved(g, tm, Budget(|g|));
    var bye := ByePairing(group);
    assert GroupPairs(group, src).0 == imp + bye;
    TotalScoreConcat(imp, bye, tm);
    assert TotalScore(bye, tm) == 0 by {
      if bye != [] {
        assert bye[..0] == [];
      }
    }
  }

  /**
   * The score of a bracket's pairings under its team map is at most the
   * conflict count of every trial run: the kept trial has the fewest, and the
   * improvement never raises the score; the bye pairing scores nothing.
   */
  lemma GroupScore(group: seq<Competitor>, src: seq<nat>) returns (ran: nat)
    requires UniqueNames(group)
    ensures ran == Selection(Working(group), src).1
    ensures 1 <= ran <= Tries(|Working(group)|)
    ensures forall i :: 0 <= i < ran ==>
              TotalScore(GroupPairs(group, src).0, TeamMap(group))
                <= TrialFrom(Working(group), StreamAt(NextOn(Working(group)), src, i)).conflicts
  {
    var w := Working(group);
    var tm := TeamMap(group);
    TeamMapAgrees(group);
    WorkingParts(group);
    assert TeamsAgree(w, tm);
    ran := BestTrialScore(w, src, tm);
    GroupPairsScore(group, src);
  }
}
