/**
 * `pairCompetitors` of logic.js: the pairings of one round. The active
 * competitors (fewer losses than the elimination threshold) are shuffled when
 * nobody has played yet, ranked by wins descending and losses ascending, and
 * paired directly when there are exactly two. Otherwise they are grouped into
 * loss brackets, a lone unbeaten competitor joins the one-loss bracket when the
 * threshold is above two, and each bracket is paired by `greedyPairGroup` in
 * ascending loss order, all drawing from one choice stream.
 */
module Partitioner {
  import opened Wrappers
  import opened Records
  import opened Sorting
  import opened Shuffle
  import opened Matcher
  import opened GroupPairing

  // ---------------------------------------------------------------------------
  // Active competitors and their ranking
  // ---------------------------------------------------------------------------

  /** `competitors.filter(c => c.losses < eliminationThreshold)`. */
  function Active(cs: seq<Competitor>, t: nat): (r: seq<Competitor>)
    ensures |r| <= |cs|
  {
    if cs == [] then []
    else (if cs[0].losses < t then [cs[0]] else []) + Active(cs[1..], t)
  }

  /** `validCompetitors.every(c => c.wins === 0 && c.losses === 0)`: nobody has played. */
  predicate Unplayed(cs: seq<Competitor>)
  {
    forall i :: 0 <= i < |cs| ==> cs[i].wins == 0 && cs[i].losses == 0
  }

  /** The active competitors after the opening shuffle, and the rest of the stream. */
  function Seeded(v: seq<Competitor>, src: seq<nat>): (seq<Competitor>, seq<nat>)
  {
    if Unplayed(v) then FisherYates(v, src) else (v, src)
  }

  /** The ranking comparator: more wins first, then fewer losses. */
  predicate RankLe(a: Competitor, b: Competitor)
  {
    a.wins > b.wins || (a.wins == b.wins && a.losses <= b.losses)
  }

  lemma RankLeTotalPreorder()
    ensures TotalPreorder(RankLe)
  {
  }

  /** `validCompetitors.sort(...)` with the ranking comparator. */
  function Ranked(v: seq<Competitor>): seq<Competitor>
  {
    SortBy(v, RankLe)
  }

  // ---------------------------------------------------------------------------
  // Loss brackets
  // ---------------------------------------------------------------------------

  /** `groups[k]`, where a missing bracket reads as empty. */
  function Bracket(m: map<nat, seq<Competitor>>, k: nat): seq<Competitor>
  {
    if k in m then m[k] else []
  }

  /** `if (!groups[c.losses]) groups[c.losses] = []; groups[c.losses].push(c)`. */
  function Push(m: map<nat, seq<Competitor>>, c: Competitor): map<nat, seq<Competitor>>
  {
    m[c.losses := Bracket(m, c.losses) + [c]]
  }

  /** The brackets after `forEach` has pushed every competitor of `v` in turn. */
  function GroupsOf(v: seq<Competitor>): map<nat, seq<Competitor>>
  {
    if v == [] then map[] else Push(GroupsOf(v[..|v| - 1]), v[|v| - 1])
  }

  /** The merge rule applies: the threshold is above two and the unbeaten bracket has one member. */
  predicate LoneLeader(m: map<nat, seq<Competitor>>, t: nat)
  {
    t > 2 && 0 in m && |m[0]| == 1
  }

  /** `groups[0].shift()` followed by pushing the lone competitor onto `groups[1]`. */
  function Merged(m: map<nat, seq<Competitor>>, t: nat): map<nat, seq<Competitor>>
  {
    if LoneLeader(m, t) then m[0 := m[0][1..]][1 := Bracket(m, 1) + [m[0][0]]] else m
  }

  // ---------------------------------------------------------------------------
  // The bracket keys in ascending order
  // ---------------------------------------------------------------------------

  /** A least element of a non-empty set of naturals. */
  lemma {:induction false} LeastOf(s: set<nat>) returns (k: nat)
    requires s != {}
    ensures k in s && forall j :: j in s ==> k <= j
    decreases |s|
  {
    var x :| x in s;
    var others := s - {x};
    if others == {} {
      k := x;
      assert s == {x};
    } else {
      var m := LeastOf(others);
      k := if x < m then x else m;
      forall j | j in s
        ensures k <= j
      {
        if j != x {
          assert j in others;
        }
      }
    }
  }

  lemma LeastExists(s: set<nat>)
    requires s != {}
    ensures exists k :: k in s && forall j :: j in s ==> k <= j
  {
    var k := LeastOf(s);
  }

  /** The least element of a non-empty set. */
  ghost function Least(s: set<nat>): (k: nat)
    requires s != {}
    ensures k in s && forall j :: j in s ==> k <= j
  {
    LeastExists(s);
    var k :| k in s && forall j :: j in s ==> k <= j; k
  }

  /** `Object.keys(groups).sort((a, b) => a - b)`: the keys, least first. */
  ghost function AscendingKeys(s: set<nat>): seq<nat>
    decreases |s|
  {
    if s == {} then [] else [Least(s)] + AscendingKeys(s - {Least(s)})
  }

  /** The ascending keys start with the least key, whichever way it was found. */
  lemma AscendingKeysFirst(s: set<nat>, k: nat)
    requires k in s && forall j :: j in s ==> k <= j
    ensures AscendingKeys(s) == [k] + AscendingKeys(s - {k})
  {
    assert k <= Least(s) && Least(s) <= k;
  }

  /** The ascending keys list exactly the keys of the set, each once. */
  lemma {:induction false} AscendingKeysMembers(s: set<nat>)
    ensures |AscendingKeys(s)| == |s|
    ensures forall k :: k in AscendingKeys(s) <==> k in s
    decreases |s|
  {
    if s != {} {
      AscendingKeysMembers(s - {Least(s)});
    }
  }

  /** The ascending keys are strictly increasing. */
  lemma {:induction false} AscendingKeysIncreasing(s: set<nat>)
    ensures forall i, j :: 0 <= i < j < |AscendingKeys(s)| ==> AscendingKeys(s)[i] < AscendingKeys(s)[j]
    decreases |s|
  {
    if s != {} {
      var k := Least(s);
      var tail := AscendingKeys(s - {k});
      AscendingKeysIncreasing(s - {k});
      AscendingKeysMembers(s - {k});
      var ks := [k] + tail;
      forall i, j | 0 <= i < j < |ks|
        ensures ks[i] < ks[j]
      {
        assert ks[j] == tail[j - 1];
        if i > 0 {
          assert ks[i] == tail[i - 1];
        } else {
          assert tail[j - 1] in s - {k};
        }
      }
    }
  }

  /** The keys of the brackets, sorted numerically. */
  method KeysAscending(m: map<nat, seq<Competitor>>) returns (ks: seq<nat>)
    ensures ks == AscendingKeys(m.Keys)
  {
    ks := [];
    var rest := m.Keys;
    while rest != {}
      invariant ks + AscendingKeys(rest) == AscendingKeys(m.Keys)
      decreases |rest|
    {
      LeastExists(rest);
      var k :| k in rest && forall j :: j in rest ==> k <= j;
      AscendingKeysFirst(rest, k);
      ks := ks + [k];
      rest := rest - {k};
    }
  }

  // ---------------------------------------------------------------------------
  // The round
  // ---------------------------------------------------------------------------

  /**
   * The `forEach` over the keys from `ks[i]` on: `acc` holds the pairings so far
   * and `rng` the stream; each bracket draws from the stream the previous one left.
   */
  function PairBrackets(m: map<nat, seq<Competitor>>, ks: seq<nat>, i: nat, rng: seq<nat>, acc: seq<Pairing>): (seq<Pairing>, seq<nat>)
    decreases |ks| - i
  {
    if i >= |ks| then (acc, rng)
    else
      var next := GroupPairs(Bracket(m, ks[i]), rng);
      PairBrackets(m, ks, i + 1, next.1, acc + next.0)
  }

  /** One step of the `forEach`, for the pairings and stream of one `greedyPairGroup` call. */
  lemma PairBracketsStep(m: map<nat, seq<Competitor>>, ks: seq<nat>, i: nat, rng: seq<nat>, acc: seq<Pairing>,
                         groupPairs: seq<Pairing>, next: seq<nat>)
    requires i < |ks| && (groupPairs, next) == GroupPairs(Bracket(m, ks[i]), rng)
    ensures PairBrackets(m, ks, i, rng, acc) == PairBrackets(m, ks, i + 1, next, acc + groupPairs)
  {
  }

  /** The brackets of a ranked list of active competitors, after the merge rule. */
  function Brackets(v: seq<Competitor>, t: nat): map<nat, seq<Competitor>>
  {
    Merged(GroupsOf(v), t)
  }

  /** The pairings of the ranked active competitors `v`: the two-player shortcut or the brackets in order. */
  ghost function PairRanked(v: seq<Competitor>, t: nat, src: seq<nat>): (seq<Pairing>, seq<nat>)
  {
    if |v| == 2 then ([Match(v[0].name, Opp(v[1].name))], src)
    else
      var m := Brackets(v, t);
      PairBrackets(m, AscendingKeys(m.Keys), 0, src, [])
  }

  /** The specification of `pairCompetitors(competitors, eliminationThreshold, {rng})`. */
  ghost function PairAll(cs: seq<Competitor>, t: nat, src: seq<nat>): (seq<Pairing>, seq<nat>)
  {
    var seeded := Seeded(Active(cs, t), src);
    PairRanked(Ranked(seeded.0), t, seeded.1)
  }

  /** `forEach` over the ranked competitors, pushing each onto its loss bracket. */
  method GroupByLosses(v: seq<Competitor>) returns (groups: map<nat, seq<Competitor>>)
    ensures groups == GroupsOf(v)
  {
    groups := map[];
    var i := 0;
    while i < |v|
      invariant i <= |v|
      invariant groups == GroupsOf(v[..i])
    {
      var comp := v[i];
      assert v[..i + 1][..i] == v[..i];
      if comp.losses !in groups {
        groups := groups[comp.losses := []];
      }
      groups := groups[comp.losses := groups[comp.losses] + [comp]];
      i := i + 1;
    }
    assert v[..|v|] == v;
  }

  /** Moves a lone unbeaten competitor into the one-loss bracket when the threshold is above two. */
  method MergeLoneLeader(groups: map<nat, seq<Competitor>>, eliminationThreshold: nat) returns (merged: map<nat, seq<Competitor>>)
    ensures merged == Merged(groups, eliminationThreshold)
  {
    merged := groups;
    if eliminationThreshold > 2 && 0 in merged && |merged[0]| == 1 {
      var lone := merged[0][0];
      merged := merged[0 := merged[0][1..]];
      if 1 !in merged {
        merged := merged[1 := []];
      }
      merged := merged[1 := merged[1] + [lone]];
    }
  }

  /** `pairs = pairs.concat(greedyPairGroup(groups[loss], {rng}))` for each key in turn. */
  method PairInOrder(groups: map<nat, seq<Competitor>>, keys: seq<nat>, src: seq<nat>) returns (pairs: seq<Pairing>, rng: seq<nat>)
    ensures (pairs, rng) == PairBrackets(groups, keys, 0, src, [])
  {
    ghost var goal := PairBrackets(groups, keys, 0, src, []);
    pairs := [];
    rng := src;
    var i := 0;
    while i < |keys|
      invariant i <= |keys|
      invariant PairBrackets(groups, keys, i, rng, pairs) == goal
    {
      var groupPairs, next := GreedyPairGroup(Bracket(groups, keys[i]), rng);
      PairBracketsStep(groups, keys, i, rng, pairs, groupPairs, next);
      pairs := pairs + groupPairs;
      rng := next;
      i := i + 1;
    }
  }

  /** `pairCompetitors(competitors, eliminationThreshold, {rng})`. */
  method PairCompetitors(competitors: seq<Competitor>, eliminationThreshold: nat, src: seq<nat>)
    returns (pairs: seq<Pairing>, rest: seq<nat>)
    requires 1 <= eliminationThreshold <= 10
    ensures (pairs, rest) == PairAll(competitors, eliminationThreshold, src)
  {
    var rng := src;
    var validCompetitors := Active(competitors, eliminationThreshold);
    if Unplayed(validCompetitors) {
      var a := new Competitor[|validCompetitors|](i requires 0 <= i < |validCompetitors| => validCompetitors[i]);
      assert a[..] == validCompetitors;
      rng := ShuffleArray(a, rng);
      validCompetitors := a[..];
    }
    validCompetitors := SortBy(validCompetitors, RankLe);
    if |validCompetitors| == 2 {
      return [Match(validCompetitors[0].name, Opp(validCompetitors[1].name))], rng;
    }
    var groups := GroupByLosses(validCompetitors);
    groups := MergeLoneLeader(groups, eliminationThreshold);
    var keys := KeysAscending(groups);
    pairs, rest := PairInOrder(groups, keys, rng);
  }

  // ---------------------------------------------------------------------------
  // Names through filtering and reordering
  // ---------------------------------------------------------------------------

  /** `filter` keeps exactly the competitors below the threshold. */
  lemma {:induction false} ActiveMembers(cs: seq<Competitor>, t: nat)
    ensures forall c :: c in Active(cs, t) <==> c in cs && c.losses < t
    decreases |cs|
  {
    if cs != [] {
      ActiveMembers(cs[1..], t);
      assert cs == [cs[0]] + cs[1..];
    }
  }

  lemma {:induction false} ActiveUnique(cs: seq<Competitor>, t: nat)
    requires UniqueNames(cs)
    ensures UniqueNames(Active(cs, t))
    decreases |cs|
  {
    if cs != [] {
      UniqueNamesTail(cs);
      ActiveUnique(cs[1..], t);
      ActiveMembers(cs[1..], t);
      var r := Active(cs[1..], t);
      if cs[0].losses < t {
        var a := [cs[0]] + r;
        assert Active(cs, t) == a;
        forall i, j | 0 <= i < j < |a|
          ensures a[i].name != a[j].name
        {
          assert a[j] == r[j - 1];
          if i == 0 {
            assert r[j - 1] in cs[1..];
          } else {
            assert a[i] == r[i - 1];
          }
        }
      }
    }
  }

  /** Names that occur at most once are unique names. */
  lemma AtMostOnceUnique(cs: seq<Competitor>)
    requires AtMostOnce(multiset(Names(cs)))
    ensures UniqueNames(cs)
  {
    forall i, j | 0 <= i < j < |cs|
      ensures cs[i].name != cs[j].name
    {
      var rest := cs[..j] + cs[j + 1..];
      NamesSplit(cs, j);
      NamesIndex(rest);
      assert rest[i] == cs[i];
      assert Names(rest)[i] in multiset(Names(rest));
      assert multiset(Names(cs))[cs[i].name] >= 1 + if cs[i].name == cs[j].name then 1 else 0;
    }
  }

  /** Reordering keeps names unique. */
  lemma UniqueNamesPermutation(a: seq<Competitor>, b: seq<Competitor>)
    requires UniqueNames(a) && multiset(a) == multiset(b)
    ensures UniqueNames(b)
  {
    UniqueNamesAtMostOnce(a);
    NamesPermutation(a, b);
    AtMostOnceUnique(b);
  }

  /** With unique names, a name identifies one competitor. */
  lemma UniqueNamesSame(v: seq<Competitor>, c: Competitor, d: Competitor)
    requires UniqueNames(v) && c in v && d in v && c.name == d.name
    ensures c == d
  {
    var i :| 0 <= i < |v| && v[i] == c;
    var j :| 0 <= j < |v| && v[j] == d;
    assert i == j;
  }

  /** The ranked list is a sorted permutation of the active competitors, whatever the stream. */
  lemma RankedActive(cs: seq<Competitor>, t: nat, src: seq<nat>)
    ensures var v := Ranked(Seeded(Active(cs, t), src).0);
            |v| == |Active(cs, t)| && multiset(v) == multiset(Active(cs, t)) && Sorted(v, RankLe)
  {
    FisherYatesPermutes(Active(cs, t), src);
    RankLeTotalPreorder();
    SortBySorted(Seeded(Active(cs, t), src).0, RankLe);
  }

  lemma RankedUnique(cs: seq<Competitor>, t: nat, src: seq<nat>)
    requires UniqueNames(cs)
    ensures UniqueNames(Ranked(Seeded(Active(cs, t), src).0))
  {
    ActiveUnique(cs, t);
    RankedActive(cs, t, src);
    UniqueNamesPermutation(Active(cs, t), Ranked(Seeded(Active(cs, t), src).0));
  }

  // ---------------------------------------------------------------------------
  // What the brackets hold
  // ---------------------------------------------------------------------------

  /** The competitors of `v` with exactly `k` losses, in the order of `v`. */
  function WithLosses(v: seq<Competitor>, k: nat): (r: seq<Competitor>)
    ensures |r| <= |v|
  {
    if v == [] then []
    else WithLosses(v[..|v| - 1], k) + (if v[|v| - 1].losses == k then [v[|v| - 1]] else [])
  }

  /** Before the merge rule, bracket `k` is the ranked list filtered to `k` losses. */
  lemma {:induction false} GroupsOfBrackets(v: seq<Competitor>)
    ensures forall k :: Bracket(GroupsOf(v), k) == WithLosses(v, k)
    ensures forall k :: k in GroupsOf(v) <==> WithLosses(v, k) != []
    decreases |v|
  {
    if v != [] {
      GroupsOfBrackets(v[..|v| - 1]);
    }
  }

  lemma {:induction false} WithLossesMembers(v: seq<Competitor>, k: nat)
    ensures forall c :: c in WithLosses(v, k) <==> c in v && c.losses == k
    decreases |v|
  {
    if v != [] {
      WithLossesMembers(v[..|v| - 1], k);
      assert v == v[..|v| - 1] + [v[|v| - 1]];
    }
  }

  /** Appending a competitor whose name is new keeps names unique. */
  lemma UniqueNamesAppend(w: seq<Competitor>, c: Competitor)
    requires UniqueNames(w) && forall d :: d in w ==> d.name != c.name
    ensures UniqueNames(w + [c])
  {
    var r := w + [c];
    forall i, j | 0 <= i < j < |r|
      ensures r[i].name != r[j].name
    {
      assert r[i] == w[i];
      if j == |w| {
        assert w[i] in w;
      } else {
        assert r[j] == w[j];
      }
    }
  }

  lemma {:induction false} WithLossesUnique(v: seq<Competitor>, k: nat)
    requires UniqueNames(v)
    ensures UniqueNames(WithLosses(v, k))
    decreases |v|
  {
    if v != [] {
      var init := v[..|v| - 1];
      var last := v[|v| - 1];
      assert UniqueNames(init) by {
        forall i, j | 0 <= i < j < |init|
          ensures init[i].name != init[j].name
        {
          assert init[i] == v[i] && init[j] == v[j];
        }
      }
      WithLossesUnique(init, k);
      if last.losses == k {
        WithLossesMembers(init, k);
        forall d | d in WithLosses(init, k)
          ensures d.name != last.name
        {
          var i :| 0 <= i < |init| && init[i] == d;
          assert v[i] == d;
        }
        UniqueNamesAppend(WithLosses(init, k), last);
      }
    }
  }

  /** The merge rule's condition on the ranked list: the threshold is above two and exactly one competitor is unbeaten. */
  predicate LoneUnbeaten(v: seq<Competitor>, t: nat)
  {
    t > 2 && |WithLosses(v, 0)| == 1
  }

  /** Bracket `k` after the merge rule, described by loss counts alone. */
  function MergedBracket(v: seq<Competitor>, t: nat, k: nat): seq<Competitor>
  {
    if LoneUnbeaten(v, t) && k == 0 then []
    else if LoneUnbeaten(v, t) && k == 1 then WithLosses(v, 1) + WithLosses(v, 0)
    else WithLosses(v, k)
  }

  lemma MergedShape(m: map<nat, seq<Competitor>>, v: seq<Competitor>, t: nat)
    requires forall k :: Bracket(m, k) == WithLosses(v, k)
    requires forall k :: k in m <==> WithLosses(v, k) != []
    ensures LoneLeader(m, t) <==> LoneUnbeaten(v, t)
    ensures forall k :: Bracket(Merged(m, t), k) == MergedBracket(v, t, k)
  {
    assert Bracket(m, 0) == WithLosses(v, 0);
    if LoneLeader(m, t) {
      assert m[0] == [m[0][0]];
    }
  }

  /** The brackets, described by loss counts. */
  lemma BracketsShape(v: seq<Competitor>, t: nat)
    ensures LoneLeader(GroupsOf(v), t) <==> LoneUnbeaten(v, t)
    ensures forall k :: Bracket(Brackets(v, t), k) == MergedBracket(v, t, k)
  {
    GroupsOfBrackets(v);
    MergedShape(GroupsOf(v), v, t);
  }

  /** With unique names, every bracket has unique names. */
  lemma MergedUnique(v: seq<Competitor>, t: nat, k: nat)
    requires UniqueNames(v)
    ensures UniqueNames(MergedBracket(v, t, k))
  {
    WithLossesUnique(v, k);
    if LoneUnbeaten(v, t) && k == 1 {
      var lone := WithLosses(v, 0)[0];
      assert WithLosses(v, 0) == [lone];
      WithLossesMembers(v, 0);
      WithLossesMembers(v, 1);
      WithLossesUnique(v, 1);
      assert lone in WithLosses(v, 0);
      forall d | d in WithLosses(v, 1)
        ensures d.name != lone.name
      {
        if d.name == lone.name {
          UniqueNamesSame(v, d, lone);
        }
      }
      UniqueNamesAppend(WithLosses(v, 1), lone);
    }
  }

  lemma BracketsUnique(v: seq<Competitor>, t: nat)
    requires UniqueNames(v)
    ensures forall k :: UniqueNames(Bracket(Brackets(v, t), k))
  {
    BracketsShape(v, t);
    forall k
      ensures UniqueNames(Bracket(Brackets(v, t), k))
    {
      MergedUnique(v, t, k);
    }
  }

  /**
   * Every member of bracket `k` is a ranked competitor with `k` losses, except
   * the lone unbeaten competitor that the merge rule moves into bracket 1; the
   * unbeaten bracket is then left empty.
   */
  lemma BracketLosses(v: seq<Competitor>, t: nat)
    ensures forall k, c :: c in Bracket(Brackets(v, t), k) ==>
              c in v && (c.losses == k || (LoneUnbeaten(v, t) && k == 1 && c.losses == 0))
    ensures LoneUnbeaten(v, t) ==> Bracket(Brackets(v, t), 0) == []
  {
    BracketsShape(v, t);
    forall k, c | c in MergedBracket(v, t, k)
      ensures c in v && (c.losses == k || (LoneUnbeaten(v, t) && k == 1 && c.losses == 0))
    {
      WithLossesMembers(v, k);
      if LoneUnbeaten(v, t) && k == 1 {
        WithLossesMembers(v, 0);
      }
    }
  }

  // ---------------------------------------------------------------------------
  // Coverage: every active competitor is seated exactly once
  // ---------------------------------------------------------------------------

  /** Strictly increasing keys, as the numeric sort of distinct keys gives. */
  predicate Increasing(ks: seq<nat>)
  {
    forall a, b :: 0 <= a < b < |ks| ==> ks[a] < ks[b]
  }

  /** The members of brackets `ks[i..]`, bracket after bracket. */
  function Roster(m: map<nat, seq<Competitor>>, ks: seq<nat>, i: nat): seq<Competitor>
    decreases |ks| - i
  {
    if i >= |ks| then [] else Bracket(m, ks[i]) + Roster(m, ks, i + 1)
  }

  /** The competitors of `v` with a loss count among `ks[i..]`, counted per key. */
  ghost function LossSum(v: seq<Competitor>, ks: seq<nat>, i: nat): multiset<Competitor>
    decreases |ks| - i
  {
    if i >= |ks| then multiset{} else multiset(WithLosses(v, ks[i])) + LossSum(v, ks, i + 1)
  }

  /** The members of the merged brackets `ks[i..]`, counted per key. */
  ghost function MergedSum(v: seq<Competitor>, t: nat, ks: seq<nat>, i: nat): multiset<Competitor>
    decreases |ks| - i
  {
    if i >= |ks| then multiset{} else multiset(MergedBracket(v, t, ks[i])) + MergedSum(v, t, ks, i + 1)
  }

  lemma {:induction false} LossSumEmpty(ks: seq<nat>, i: nat)
    ensures LossSum([], ks, i) == multiset{}
    decreases |ks| - i
  {
    if i < |ks| {
      LossSumEmpty(ks, i + 1);
    }
  }

  /** With increasing keys, a key occurs at most once in a suffix. */
  lemma KeyOnce(ks: seq<nat>, i: nat)
    requires Increasing(ks) && i < |ks|
    ensures ks[i..] == [ks[i]] + ks[i + 1..]
    ensures ks[i] !in ks[i + 1..]
  {
    assert forall j :: i < j < |ks| ==> ks[j] > ks[i];
  }

  lemma {:induction false} LossSumPush(v: seq<Competitor>, c: Competitor, ks: seq<nat>, i: nat)
    requires Increasing(ks) && i <= |ks|
    ensures LossSum(v + [c], ks, i) == LossSum(v, ks, i) + (if c.losses in ks[i..] then multiset{c} else multiset{})
    decreases |ks| - i
  {
    if i < |ks| {
      LossSumPush(v, c, ks, i + 1);
      KeyOnce(ks, i);
      assert (v + [c])[..|v + [c]| - 1] == v;
    }
  }

  /** When the keys list every loss count of `v`, the brackets hold all of `v`. */
  lemma {:induction false} LossSumAll(v: seq<Competitor>, ks: seq<nat>)
    requires Increasing(ks) && forall c :: c in v ==> c.losses in ks
    ensures LossSum(v, ks, 0) == multiset(v)
    decreases |v|
  {
    if v == [] {
      LossSumEmpty(ks, 0);
    } else {
      var init := v[..|v| - 1];
      assert v == init + [v[|v| - 1]];
      LossSumAll(init, ks);
      LossSumPush(init, v[|v| - 1], ks, 0);
      assert ks[0..] == ks;
    }
  }

  /** `x` when `b` holds, nothing otherwise. */
  function When<T>(b: bool, x: multiset<T>): multiset<T>
  {
    if b then x else multiset{}
  }

  lemma AddBoth<T>(w: multiset<T>, x: multiset<T>, y: multiset<T>, a: multiset<T>, b: multiset<T>)
    requires x + a == y + b
    ensures (w + x) + a == (w + y) + b
  {
    forall n
      ensures ((w + x) + a)[n] == ((w + y) + b)[n]
    {
      assert (x + a)[n] == (y + b)[n];
    }
  }

  lemma ShiftLone<T>(ms: multiset<T>, ls: multiset<T>, lone: multiset<T>, b: multiset<T>)
    requires ms == ls + b
    ensures ms + lone == (lone + ls) + b
  {
    AddBoth(lone, ms, ls, multiset{}, b);
    assert lone + ms == ms + lone;
  }

  lemma TakeLone<T>(w: multiset<T>, ms: multiset<T>, ls: multiset<T>, lone: multiset<T>, a: multiset<T>)
    requires ms + a == ls
    ensures ((w + lone) + ms) + a == (w + ls) + lone
  {
    AddBoth(w + lone, ms, ls, a, multiset{});
    assert (w + lone) + ls == (w + ls) + lone;
  }

  /** The merge rule moves one competitor between brackets and loses none. */
  lemma {:induction false} MergedSumLoss(v: seq<Competitor>, t: nat, ks: seq<nat>, i: nat)
    requires Increasing(ks) && i <= |ks|
    ensures MergedSum(v, t, ks, i) + When(LoneUnbeaten(v, t) && 0 in ks[i..], multiset(WithLosses(v, 0)))
            == LossSum(v, ks, i) + When(LoneUnbeaten(v, t) && 1 in ks[i..], multiset(WithLosses(v, 0)))
    decreases |ks| - i
  {
    if i < |ks| {
      var lone := multiset(WithLosses(v, 0));
      var l := LoneUnbeaten(v, t);
      var k := ks[i];
      var w := multiset(WithLosses(v, k));
      MergedSumLoss(v, t, ks, i + 1);
      KeyOnce(ks, i);
      var ms, ls := MergedSum(v, t, ks, i + 1), LossSum(v, ks, i + 1);
      var zero, one := 0 in ks[i + 1..], 1 in ks[i + 1..];
      var a, b := When(l && zero, lone), When(l && one, lone);
      assert ms + a == ls + b;
      assert LossSum(v, ks, i) == w + ls;
      if l && k == 0 {
        assert MergedSum(v, t, ks, i) == ms;
        assert 0 in ks[i..] && (1 in ks[i..] <==> one) && !zero;
        assert a == multiset{} && w == lone;
        ShiftLone(ms, ls, lone, b);
      } else if l && k == 1 {
        assert MergedSum(v, t, ks, i) == (w + lone) + ms;
        assert 1 in ks[i..] && (0 in ks[i..] <==> zero) && !one;
        assert b == multiset{};
        TakeLone(w, ms, ls, lone, a);
      } else {
        assert MergedSum(v, t, ks, i) == w + ms;
        assert l ==> (0 in ks[i..] <==> zero) && (1 in ks[i..] <==> one);
        AddBoth(w, ms, ls, a, b);
      }
    }
  }

  lemma {:induction false} RosterSum(m: map<nat, seq<Competitor>>, v: seq<Competitor>, t: nat, ks: seq<nat>, i: nat)
    requires forall k :: Bracket(m, k) == MergedBracket(v, t, k)
    ensures multiset(Roster(m, ks, i)) == MergedSum(v, t, ks, i)
    decreases |ks| - i
  {
    if i < |ks| {
      RosterSum(m, v, t, ks, i + 1);
    }
  }

  /** The `forEach` over the keys with any bracket pairing `pair` in place of `greedyPairGroup`. */
  function PairBracketsBy(pair: (seq<Competitor>, seq<nat>) -> (seq<Pairing>, seq<nat>),
                          m: map<nat, seq<Competitor>>, ks: seq<nat>, i: nat, rng: seq<nat>, acc: seq<Pairing>): (seq<Pairing>, seq<nat>)
    decreases |ks| - i
  {
    if i >= |ks| then (acc, rng)
    else
      var next := pair(Bracket(m, ks[i]), rng);
      PairBracketsBy(pair, m, ks, i + 1, next.1, acc + next.0)
  }

  lemma {:induction false} PairBracketsIsBy(m: map<nat, seq<Competitor>>, ks: seq<nat>, i: nat, rng: seq<nat>, acc: seq<Pairing>)
    ensures PairBrackets(m, ks, i, rng, acc) == PairBracketsBy(GroupPairs, m, ks, i, rng, acc)
    decreases |ks| - i
  {
    if i < |ks| {
      var next := GroupPairs(Bracket(m, ks[i]), rng);
      PairBracketsIsBy(m, ks, i + 1, next.1, acc + next.0);
    }
  }

  /** A bracket pairing that seats every member of a bracket once seats every member of the brackets once. */
  lemma {:induction false} PairBracketsByCover(pair: (seq<Competitor>, seq<nat>) -> (seq<Pairing>, seq<nat>),
                                               m: map<nat, seq<Competitor>>, ks: seq<nat>, i: nat, rng: seq<nat>, acc: seq<Pairing>)
    requires forall g, r :: UniqueNames(g) ==> Participants(pair(g, r).0) == multiset(Names(g))
    requires forall j :: i <= j < |ks| ==> UniqueNames(Bracket(m, ks[j]))
    ensures Participants(PairBracketsBy(pair, m, ks, i, rng, acc).0) == Participants(acc) + multiset(Names(Roster(m, ks, i)))
    decreases |ks| - i
  {
    if i < |ks| {
      var g := Bracket(m, ks[i]);
      var next := pair(g, rng);
      PairBracketsByCover(pair, m, ks, i + 1, next.1, acc + next.0);
      ParticipantsConcat(acc, next.0);
      NamesBagConcat(g, Roster(m, ks, i + 1));
    }
  }

  /** The pairings of the brackets seat every member of them, once per membership. */
  lemma PairBracketsCover(m: map<nat, seq<Competitor>>, ks: seq<nat>, rng: seq<nat>)
    requires forall j :: 0 <= j < |ks| ==> UniqueNames(Bracket(m, ks[j]))
    ensures Participants(PairBrackets(m, ks, 0, rng, []).0) == multiset(Names(Roster(m, ks, 0)))
  {
    forall g, r | UniqueNames(g)
      ensures Participants(GroupPairs(g, r).0) == multiset(Names(g))
    {
      GroupCovers(g, r);
    }
    PairBracketsIsBy(m, ks, 0, rng, []);
    PairBracketsByCover(GroupPairs, m, ks, 0, rng, []);
  }

  lemma MergedKeys(m: map<nat, seq<Competitor>>, t: nat)
    ensures forall k :: k in m ==> k in Merged(m, t)
    ensures LoneLeader(m, t) ==> 0 in Merged(m, t) && 1 in Merged(m, t)
  {
  }

  /** Every loss count of the ranked list is a bracket key, and so are 0 and 1 under the merge rule. */
  lemma BracketKeys(v: seq<Competitor>, t: nat)
    ensures forall c :: c in v ==> c.losses in Brackets(v, t)
    ensures LoneUnbeaten(v, t) ==> 0 in Brackets(v, t) && 1 in Brackets(v, t)
  {
    GroupsOfBrackets(v);
    MergedKeys(GroupsOf(v), t);
    BracketsShape(v, t);
    forall c | c in v
      ensures c.losses in GroupsOf(v)
    {
      WithLossesMembers(v, c.losses);
      assert c in WithLosses(v, c.losses);
    }
  }

  /** Taken in ascending key order, the brackets hold every ranked competitor exactly once. */
  lemma BracketsHoldAll(v: seq<Competitor>, t: nat)
    ensures var m := Brackets(v, t);
            multiset(Roster(m, AscendingKeys(m.Keys), 0)) == multiset(v)
  {
    var m := Brackets(v, t);
    var ks := AscendingKeys(m.Keys);
    AscendingKeysMembers(m.Keys);
    AscendingKeysIncreasing(m.Keys);
    BracketKeys(v, t);
    BracketsShape(v, t);
    RosterSum(m, v, t, ks, 0);
    MergedSumLoss(v, t, ks, 0);
    LossSumAll(v, ks);
    assert ks[0..] == ks;
    var extra := When(LoneUnbeaten(v, t), multiset(WithLosses(v, 0)));
    assert MergedSum(v, t, ks, 0) + extra == multiset(v) + extra;
    MultisetCancel(MergedSum(v, t, ks, 0), multiset(v), extra);
  }

  /** Each ranked competitor with a unique name is seated exactly once in the round. */
  lemma PairRankedCovers(v: seq<Competitor>, t: nat, rng: seq<nat>)
    requires UniqueNames(v)
    ensures Participants(PairRanked(v, t, rng).0) == multiset(Names(v))
  {
    if |v| == 2 {
      var ps := [Match(v[0].name, Opp(v[1].name))];
      NamesIndex(v);
      assert Names(v) == [v[0].name, v[1].name];
      assert Participants(ps) == Participants(ps[..0]) + Seated(ps[0]);
    } else {
      var m := Brackets(v, t);
      var ks := AscendingKeys(m.Keys);
      BracketsUnique(v, t);
      PairBracketsCover(m, ks, rng);
      BracketsHoldAll(v, t);
      NamesPermutation(Roster(m, ks, 0), v);
    }
  }

  /**
   * `pairCompetitors` seats exactly the competitors with fewer losses than the
   * threshold, each once, whatever the choice stream.
   */
  lemma PairAllCovers(cs: seq<Competitor>, t: nat, src: seq<nat>)
    requires UniqueNames(cs)
    ensures Participants(PairAll(cs, t, src).0) == multiset(Names(Active(cs, t)))
  {
    var seeded := Seeded(Active(cs, t), src);
    var v := Ranked(seeded.0);
    RankedActive(cs, t, src);
    RankedUnique(cs, t, src);
    PairRankedCovers(v, t, seeded.1);
    NamesPermutation(v, Active(cs, t));
  }

  /** With unique names, nobody is seated twice and no pairing seats a competitor against itself. */
  lemma PairAllSeatsOnce(cs: seq<Competitor>, t: nat, src: seq<nat>)
    requires UniqueNames(cs)
    ensures AtMostOnce(Participants(PairAll(cs, t, src).0))
    ensures NoSelfPairs(PairAll(cs, t, src).0)
  {
    PairAllCovers(cs, t, src);
    ActiveUnique(cs, t);
    UniqueNamesAtMostOnce(Active(cs, t));
    NoSelfPairsFromParticipants(PairAll(cs, t, src).0);
  }

  /** No competitor at or above the threshold is seated. */
  lemma EliminatedSitOut(cs: seq<Competitor>, t: nat, src: seq<nat>)
    requires UniqueNames(cs)
    ensures forall c :: c in cs && c.losses >= t ==> c.name !in Participants(PairAll(cs, t, src).0)
  {
    PairAllCovers(cs, t, src);
    ActiveMembers(cs, t);
    var a := Active(cs, t);
    forall c | c in cs && c.name in multiset(Names(a))
      ensures c.losses < t
    {
      var k := NamesMember(a, c.name);
      UniqueNamesSame(cs, a[k], c);
    }
  }

  /** A bracket pairing that keeps fresh pairings keeps the round fresh. */
  lemma {:induction false} PairBracketsByFresh(pair: (seq<Competitor>, seq<nat>) -> (seq<Pairing>, seq<nat>),
                                               m: map<nat, seq<Competitor>>, ks: seq<nat>, i: nat, rng: seq<nat>, acc: seq<Pairing>)
    requires forall g, r :: AllFresh(pair(g, r).0)
    requires AllFresh(acc)
    ensures AllFresh(PairBracketsBy(pair, m, ks, i, rng, acc).0)
    decreases |ks| - i
  {
    if i < |ks| {
      var next := pair(Bracket(m, ks[i]), rng);
      AllFreshConcat(acc, next.0);
      PairBracketsByFresh(pair, m, ks, i + 1, next.1, acc + next.0);
    }
  }

  /** Every pairing of the round starts with nothing selected and nothing applied. */
  lemma PairAllFresh(cs: seq<Competitor>, t: nat, src: seq<nat>)
    ensures AllFresh(PairAll(cs, t, src).0)
  {
    var seeded := Seeded(Active(cs, t), src);
    var v := Ranked(seeded.0);
    if |v| != 2 {
      var m := Brackets(v, t);
      var ks := AscendingKeys(m.Keys);
      forall g, r
        ensures AllFresh(GroupPairs(g, r).0)
      {
        GroupFresh(g, r);
      }
      PairBracketsIsBy(m, ks, 0, seeded.1, []);
      PairBracketsByFresh(GroupPairs, m, ks, 0, seeded.1, []);
    }
  }

  /**
   * With exactly two active competitors the round is the single pairing of the
   * higher-ranked one against the other, and no bracket is formed.
   */
  lemma PairAllTwo(cs: seq<Competitor>, t: nat, src: seq<nat>)
    requires |Active(cs, t)| == 2
    ensures var seeded := Seeded(Active(cs, t), src);
            var v := Ranked(seeded.0);
            multiset(v) == multiset(Active(cs, t)) && RankLe(v[0], v[1])
            && PairAll(cs, t, src) == ([Match(v[0].name, Opp(v[1].name))], seeded.1)
  {
    RankedActive(cs, t, src);
  }

  /** The bracket keys are below the threshold when every ranked competitor is. */
  lemma BracketKeysBelow(v: seq<Competitor>, t: nat)
    requires forall c :: c in v ==> c.losses < t
    ensures forall k :: k in Brackets(v, t) ==> k < t
  {
    GroupsOfBrackets(v);
    forall k | k in GroupsOf(v)
      ensures k < t
    {
      WithLossesMembers(v, k);
      assert WithLosses(v, k)[0] in WithLosses(v, k);
    }
  }

  /** Brackets are paired in strictly ascending key order, each key once. */
  lemma BracketOrder(v: seq<Competitor>, t: nat)
    ensures var m := Brackets(v, t);
            var ks := AscendingKeys(m.Keys);
            Increasing(ks) && (forall k :: k in ks <==> k in m) && |ks| == |m.Keys|
  {
    var m := Brackets(v, t);
    AscendingKeysMembers(m.Keys);
    AscendingKeysIncreasing(m.Keys);
  }

  /** Every pairing made by a covering bracket pairing seats names of a single bracket. */
  lemma {:induction false} PairBracketsByWithin(pair: (seq<Competitor>, seq<nat>) -> (seq<Pairing>, seq<nat>),
                                                m: map<nat, seq<Competitor>>, ks: seq<nat>, i: nat, rng: seq<nat>, acc: seq<Pairing>)
    requires forall g, r :: UniqueNames(g) ==> Participants(pair(g, r).0) == multiset(Names(g))
    requires forall j :: i <= j < |ks| ==> UniqueNames(Bracket(m, ks[j]))
    ensures forall p :: p in PairBracketsBy(pair, m, ks, i, rng, acc).0 ==>
              p in acc || exists j :: i <= j < |ks| && Seated(p) <= multiset(Names(Bracket(m, ks[j])))
    decreases |ks| - i
  {
    if i < |ks| {
      var g := Bracket(m, ks[i]);
      var next := pair(g, rng);
      PairBracketsByWithin(pair, m, ks, i + 1, next.1, acc + next.0);
      forall p | p in next.0
        ensures Seated(p) <= multiset(Names(g))
      {
        var k :| 0 <= k < |next.0| && next.0[k] == p;
        SeatedInParticipants(next.0, k);
      }
    }
  }

  /** Outside the two-competitor shortcut, every pairing seats names of one bracket. */
  lemma PairRankedWithin(v: seq<Competitor>, t: nat, rng: seq<nat>)
    requires UniqueNames(v) && |v| != 2
    ensures forall p :: p in PairRanked(v, t, rng).0 ==>
              exists k :: Seated(p) <= multiset(Names(Bracket(Brackets(v, t), k)))
  {
    var m := Brackets(v, t);
    var ks := AscendingKeys(m.Keys);
    BracketsUnique(v, t);
    forall g, r | UniqueNames(g)
      ensures Participants(GroupPairs(g, r).0) == multiset(Names(g))
    {
      GroupCovers(g, r);
    }
    PairBracketsIsBy(m, ks, 0, rng, []);
    PairBracketsByWithin(GroupPairs, m, ks, 0, rng, []);
  }

  /** The competitor of a bracket who carries a given seated name. */
  lemma BracketHolder(v: seq<Competitor>, t: nat, k: nat, a: Competitor)
    requires UniqueNames(v) && a in v && a.name in multiset(Names(Bracket(Brackets(v, t), k)))
    ensures a.losses == k || (LoneUnbeaten(v, t) && k == 1 && a.losses == 0)
  {
    var b := Bracket(Brackets(v, t), k);
    var i := NamesMember(b, a.name);
    BracketLosses(v, t);
    UniqueNamesSame(v, b[i], a);
  }

  /** Two competitors seated from one bracket: equal losses, or the merged unbeaten one meets a one-loss one. */
  lemma BracketMates(v: seq<Competitor>, t: nat, k: nat, a: Competitor, b: Competitor)
    requires UniqueNames(v) && a in v && b in v
    requires a.name in multiset(Names(Bracket(Brackets(v, t), k)))
    requires b.name in multiset(Names(Bracket(Brackets(v, t), k)))
    ensures a.losses == b.losses ||
            (t > 2 && a.losses + b.losses == 1 && forall c :: c in v && c.losses == 0 ==> c == a || c == b)
  {
    BracketHolder(v, t, k, a);
    BracketHolder(v, t, k, b);
    if a.losses != b.losses {
      WithLossesMembers(v, 0);
      var w := WithLosses(v, 0);
      assert w == [w[0]];
    }
  }

  /** The same-losses rule on the ranked list. */
  lemma RankedSameLosses(v: seq<Competitor>, t: nat, rng: seq<nat>)
    requires UniqueNames(v) && |v| != 2
    ensures forall p, a, b ::
              (p in PairRanked(v, t, rng).0 && p.comp2.Opp? && a in v && b in v &&
               a.name == p.comp1 && b.name == p.comp2.name) ==>
              a.losses == b.losses ||
              (t > 2 && a.losses + b.losses == 1 && forall c :: c in v && c.losses == 0 ==> c == a || c == b)
  {
    PairRankedWithin(v, t, rng);
    forall p, a, b | p in PairRanked(v, t, rng).0 && p.comp2.Opp? && a in v && b in v &&
                     a.name == p.comp1 && b.name == p.comp2.name
      ensures a.losses == b.losses ||
              (t > 2 && a.losses + b.losses == 1 && forall c :: c in v && c.losses == 0 ==> c == a || c == b)
    {
      var k :| Seated(p) <= multiset(Names(Bracket(Brackets(v, t), k)));
      BracketMates(v, t, k, a, b);
    }
  }

  /**
   * Outside the two-competitor shortcut, the two competitors of a pairing have
   * the same number of losses, except when the single unbeaten competitor has
   * been merged into the one-loss bracket and meets a one-loss competitor.
   */
  lemma PairAllSameLosses(cs: seq<Competitor>, t: nat, src: seq<nat>)
    requires UniqueNames(cs) && |Active(cs, t)| != 2
    ensures forall p, a, b ::
              (p in PairAll(cs, t, src).0 && p.comp2.Opp? && a in Active(cs, t) && b in Active(cs, t) &&
               a.name == p.comp1 && b.name == p.comp2.name) ==>
              a.losses == b.losses ||
              (t > 2 && a.losses + b.losses == 1 && forall c :: c in Active(cs, t) && c.losses == 0 ==> c == a || c == b)
  {
    var seeded := Seeded(Active(cs, t), src);
    var v := Ranked(seeded.0);
    RankedActive(cs, t, src);
    RankedUnique(cs, t, src);
    RankedSameLosses(v, t, seeded.1);
    assert forall c :: c in Active(cs, t) <==> c in multiset(v);
  }

  /** The two competitors a match seats, when every seated name is a roster name. */
  lemma SeatedMembers(ps: seq<Pairing>, act: seq<Competitor>, k: nat) returns (a: Competitor, b: Competitor)
    requires Participants(ps) == multiset(Names(act))
    requires k < |ps| && ps[k].comp2.Opp?
    ensures a in act && b in act && a.name == ps[k].comp1 && b.name == ps[k].comp2.name
  {
    SeatedInParticipants(ps, k);
    var i := NamesMember(act, ps[k].comp1);
    var j := NamesMember(act, ps[k].comp2.name);
    a, b := act[i], act[j];
  }

  /**
   * When no two active competitors share a loss count and none is unbeaten,
   * every loss bracket holds one competitor, and (past the two-competitor
   * shortcut) every pairing the engine returns is a bye.
   */
  lemma DistinctLossesAllByes(cs: seq<Competitor>, t: nat, src: seq<nat>)
    requires UniqueNames(cs) && |Active(cs, t)| != 2
    requires forall a, b :: a in Active(cs, t) && b in Active(cs, t) && a.losses == b.losses ==> a == b
    requires forall c :: c in Active(cs, t) ==> c.losses > 0
    ensures forall k :: 0 <= k < |PairAll(cs, t, src).0| ==> PairAll(cs, t, src).0[k].comp2.Bye?
  {
    var ps := PairAll(cs, t, src).0;
    var act := Active(cs, t);
    PairAllCovers(cs, t, src);
    PairAllSeatsOnce(cs, t, src);
    PairAllSameLosses(cs, t, src);
    forall k | 0 <= k < |ps|
      ensures ps[k].comp2.Bye?
    {
      assert ps[k] in ps;
      if ps[k].comp2.Opp? {
        var a, b := SeatedMembers(ps, act, k);
        assert false;
      }
    }
  }
}
