/**
 * The group matcher of logic.js (`greedyPairGroup` with its inner
 * `buildPairsFromOrder`, `conflictScore` and `tryImprovement`): pairs the
 * members of one loss bracket, giving an odd bracket's bye to a member with
 * the most wins, by repeated shuffled greedy trials followed by a bounded
 * first-improvement search over two-pairing swaps.
 */
module Matcher {
  import opened Wrappers
  import opened Records
  import opened Sorting
  import opened Shuffle

  // ---------------------------------------------------------------------------
  // Greedy construction (`buildPairsFromOrder`)
  // ---------------------------------------------------------------------------

  /** `remaining.findIndex(c => c.team !== team)`: -1 when every member has that team. */
  function FindOtherTeam(cs: seq<Competitor>, team: string): (k: int)
    ensures -1 <= k < |cs|
    ensures k >= 0 ==> cs[k].team != team
  {
    if cs == [] then -1
    else if cs[0].team != team then 0
    else
      var k := FindOtherTeam(cs[1..], team);
      if k == -1 then -1 else k + 1
  }

  /** The search finds the first competitor of another team, and -1 exactly when there is none. */
  lemma {:induction false} FindOtherTeamFirst(cs: seq<Competitor>, team: string)
    ensures FindOtherTeam(cs, team) == -1 <==> forall i :: 0 <= i < |cs| ==> cs[i].team == team
    ensures forall i :: 0 <= i < FindOtherTeam(cs, team) ==> cs[i].team == team
  {
    if cs != [] && cs[0].team == team {
      FindOtherTeamFirst(cs[1..], team);
      forall i | 0 < i < |cs| ensures cs[i].team == cs[1..][i - 1].team {
      }
    }
  }

  /** Position, in the order, of the partner the greedy pass gives the front competitor. */
  function PartnerIndex(arr: seq<Competitor>): (p: nat)
    requires |arr| > 1
    ensures 1 <= p < |arr|
  {
    var found := FindOtherTeam(arr[1..], arr[0].team);
    if found == -1 then 1 else found + 1
  }

  /** No later competitor has a team different from the front one's: the pairing is a conflict. */
  predicate Forced(arr: seq<Competitor>)
    requires |arr| > 1
  {
    FindOtherTeam(arr[1..], arr[0].team) == -1
  }

  /** The order left once the front competitor and its partner are taken out. */
  function Remaining(arr: seq<Competitor>): (r: seq<Competitor>)
    requires |arr| > 1
    ensures |r| == |arr| - 2
  {
    arr[1..PartnerIndex(arr)] + arr[PartnerIndex(arr) + 1..]
  }

  /**
   * The pairs and the conflict count that the greedy pass produces from an
   * order: the front competitor takes the first later one whose team differs,
   * or, when there is none, the next one, which counts as a conflict.
   */
  function GreedyPairs(arr: seq<Competitor>): (seq<Pairing>, nat)
    decreases |arr|
  {
    if |arr| == 0 then ([], 0)
    else if |arr| == 1 then ([Match(arr[0].name, Bye)], 0)
    else
      var sub := GreedyPairs(Remaining(arr));
      ([Match(arr[0].name, Opp(arr[PartnerIndex(arr)].name))] + sub.0, (if Forced(arr) then 1 else 0) + sub.1)
  }

  /** One turn of the greedy loop: the pairs found so far followed by the rest of the pass. */
  lemma GreedyStep(done: seq<Pairing>, conflicts: nat, before: seq<Competitor>)
    requires |before| > 1
    ensures done + GreedyPairs(before).0
         == (done + [Match(before[0].name, Opp(before[PartnerIndex(before)].name))]) + GreedyPairs(Remaining(before)).0
    ensures conflicts + GreedyPairs(before).1
         == (conflicts + if Forced(before) then 1 else 0) + GreedyPairs(Remaining(before)).1
  {
    GreedyUnfold(before);
    var head := [Match(before[0].name, Opp(before[PartnerIndex(before)].name))];
    var tail := GreedyPairs(Remaining(before)).0;
    assert done + (head + tail) == (done + head) + tail;
  }

  /** The end of the greedy loop: at most one competitor is left, who takes the bye. */
  lemma GreedyEnd(done: seq<Pairing>, rest: seq<Competitor>)
    requires |rest| <= 1
    ensures GreedyPairs(rest).1 == 0
    ensures done + GreedyPairs(rest).0 == if |rest| == 1 then done + [Match(rest[0].name, Bye)] else done
  {
  }

  /** `buildPairsFromOrder(arr)`: the while loop that shifts and splices `remaining`. */
  method BuildPairsFromOrder(arr: seq<Competitor>) returns (resultPairs: seq<Pairing>, conflicts: nat)
    ensures (resultPairs, conflicts) == GreedyPairs(arr)
  {
    var remaining := arr;
    resultPairs := [];
    conflicts := 0;
    assert resultPairs + GreedyPairs(remaining).0 == GreedyPairs(arr).0;
    while |remaining| > 1
      invariant GreedyPairs(arr).0 == resultPairs + GreedyPairs(remaining).0
      invariant GreedyPairs(arr).1 == conflicts + GreedyPairs(remaining).1
      decreases |remaining|
    {
      ghost var before := remaining;
      var a := remaining[0];
      remaining := remaining[1..];
      var idx := FindOtherTeam(remaining, a.team);
      ghost var forced := idx == -1;
      if idx == -1 {
        idx := 0;
        conflicts := conflicts + 1;
      }
      var b := remaining[idx];
      remaining := remaining[..idx] + remaining[idx + 1..];
      ghost var done := resultPairs;
      resultPairs := resultPairs + [Match(a.name, Opp(b.name))];
      GreedyStep(done, if forced then conflicts - 1 else conflicts, before);
      assert PartnerIndex(before) == idx + 1;
      assert remaining == Remaining(before);
    }
    GreedyEnd(resultPairs, remaining);
    if |remaining| == 1 {
      resultPairs := resultPairs + [Match(remaining[0].name, Bye)];
    }
  }

  /** Every pairing is fresh: nothing selected, nothing applied. */
  predicate AllFresh(ps: seq<Pairing>)
  {
    forall k :: 0 <= k < |ps| ==> ps[k].selected == "" && !ps[k].applied
  }

  /** One greedy step on an order of at least two competitors. */
  lemma GreedyUnfold(arr: seq<Competitor>)
    requires |arr| > 1
    ensures GreedyPairs(arr).0 == [Match(arr[0].name, Opp(arr[PartnerIndex(arr)].name))] + GreedyPairs(Remaining(arr)).0
    ensures GreedyPairs(arr).1 == (if Forced(arr) then 1 else 0) + GreedyPairs(Remaining(arr)).1
  {
  }

  /** Taking out the elements at positions 0 and `p` of a sequence. */
  lemma SpliceTwo<T>(arr: seq<T>, p: nat)
    requires 0 < p < |arr|
    ensures multiset(arr[1..p] + arr[p + 1..]) + multiset{arr[0], arr[p]} == multiset(arr)
  {
    assert arr == [arr[0]] + arr[1..p] + [arr[p]] + arr[p + 1..];
  }

  /** The names of two competitors. */
  lemma NamesPair(x: Competitor, y: Competitor)
    ensures multiset(Names([x, y])) == multiset{x.name, y.name}
  {
    assert [x, y][..1] == [x];
    assert [x][..0] == [];
  }

  /** The front competitor, its partner and the remaining order make up the whole order. */
  lemma RemainingParts(arr: seq<Competitor>)
    requires |arr| > 1
    ensures multiset(Remaining(arr)) + multiset{arr[0], arr[PartnerIndex(arr)]} == multiset(arr)
    ensures multiset(Names(Remaining(arr))) + multiset{arr[0].name, arr[PartnerIndex(arr)].name} == multiset(Names(arr))
  {
    var p := PartnerIndex(arr);
    var whole := Remaining(arr) + [arr[0], arr[p]];
    SpliceTwo(arr, p);
    assert multiset(whole) == multiset(arr);
    NamesPermutation(whole, arr);
    NamesBagConcat(Remaining(arr), [arr[0], arr[p]]);
    NamesPair(arr[0], arr[p]);
  }

  /** Every competitor of the remaining order comes from the order. */
  lemma RemainingFromOrder(arr: seq<Competitor>)
    requires |arr| > 1
    ensures forall c :: c in Remaining(arr) ==> c in arr
  {
    var p := PartnerIndex(arr);
    forall c | c in Remaining(arr) ensures c in arr {
      if c in arr[1..p] {
        var i :| 0 <= i < |arr[1..p]| && arr[1..p][i] == c;
        assert arr[i + 1] == c;
      } else {
        assert c in arr[p + 1..];
        var i :| 0 <= i < |arr[p + 1..]| && arr[p + 1..][i] == c;
        assert arr[p + 1 + i] == c;
      }
    }
  }

  /** The front pairing is a conflict exactly when the partner has the front competitor's team. */
  lemma ForcedIffSameTeam(arr: seq<Competitor>)
    requires |arr| > 1
    ensures Forced(arr) <==> arr[0].team == arr[PartnerIndex(arr)].team
  {
    FindOtherTeamFirst(arr[1..], arr[0].team);
    if Forced(arr) {
      assert arr[1..][0] == arr[1];
    }
  }

  /** When the front pairing is a conflict, everyone remaining has the front competitor's team. */
  lemma ForcedAllSameTeam(arr: seq<Competitor>)
    requires |arr| > 1 && Forced(arr)
    ensures forall c :: c in Remaining(arr) ==> c.team == arr[0].team
  {
    FindOtherTeamFirst(arr[1..], arr[0].team);
    assert Remaining(arr) == arr[2..];
    forall c | c in arr[2..] ensures c.team == arr[0].team {
      var i :| 0 <= i < |arr[2..]| && arr[2..][i] == c;
      assert arr[1..][i + 1] == c;
    }
  }

  /** Every competitor of the order is seated exactly once in the greedy pairs. */
  lemma {:induction false} GreedyCovers(arr: seq<Competitor>)
    ensures Participants(GreedyPairs(arr).0) == multiset(Names(arr))
    decreases |arr|
  {
    if |arr| == 1 {
      assert Participants([Match(arr[0].name, Bye)]) == Participants([]) + Seated(Match(arr[0].name, Bye));
    } else if |arr| > 1 {
      var r := Remaining(arr);
      GreedyCovers(r);
      GreedyUnfold(arr);
      RemainingParts(arr);
      var head := [Match(arr[0].name, Opp(arr[PartnerIndex(arr)].name))];
      ParticipantsConcat(head, GreedyPairs(r).0);
      assert Participants(head) == Participants([]) + Seated(head[0]);
    }
  }

  /** The greedy pass makes one pairing per two competitors, rounded up. */
  lemma {:induction false} GreedyLength(arr: seq<Competitor>)
    ensures |GreedyPairs(arr).0| == (|arr| + 1) / 2
    decreases |arr|
  {
    if |arr| > 1 {
      GreedyLength(Remaining(arr));
      GreedyUnfold(arr);
    }
  }

  /** Only the last pairing may be a bye, and it is one exactly when `odd` holds. */
  predicate ByeOnlyLast(ps: seq<Pairing>, odd: bool)
  {
    forall k :: 0 <= k < |ps| ==> (ps[k].comp2.Bye? <==> (odd && k == |ps| - 1))
  }

  lemma ByeOnlyLastCons(m: Pairing, t: seq<Pairing>, odd: bool)
    requires m.comp2.Opp? && ByeOnlyLast(t, odd) && (odd ==> t != [])
    ensures ByeOnlyLast([m] + t, odd)
  {
    var g := [m] + t;
    forall k | 0 <= k < |g| ensures g[k].comp2.Bye? <==> (odd && k == |g| - 1) {
      if k > 0 {
        assert g[k] == t[k - 1];
      }
    }
  }

  lemma GreedyNonEmpty(arr: seq<Competitor>)
    requires |arr| > 0
    ensures GreedyPairs(arr).0 != []
  {
  }

  lemma ParityStep(n: nat)
    ensures (n + 2) % 2 == n % 2
  {
  }

  /** The greedy pairs hold one bye exactly when the order has odd length, and then last. */
  lemma {:induction false} GreedyByeLast(arr: seq<Competitor>)
    ensures ByeOnlyLast(GreedyPairs(arr).0, |arr| % 2 == 1)
    decreases |arr|
  {
    if |arr| > 1 {
      var r := Remaining(arr);
      var odd := |arr| % 2 == 1;
      ParityStep(|r|);
      assert odd == (|r| % 2 == 1);
      assert odd ==> |r| > 0;
      GreedyByeLast(r);
      if |r| > 0 {
        GreedyNonEmpty(r);
      }
      GreedyUnfold(arr);
      ByeOnlyLastCons(Match(arr[0].name, Opp(arr[PartnerIndex(arr)].name)), GreedyPairs(r).0, odd);
    }
  }

  /** The greedy pairs are fresh: nothing selected, nothing applied. */
  lemma {:induction false} GreedyFresh(arr: seq<Competitor>)
    ensures AllFresh(GreedyPairs(arr).0)
    decreases |arr|
  {
    if |arr| > 1 {
      var r := Remaining(arr);
      GreedyFresh(r);
      GreedyUnfold(arr);
      var g := GreedyPairs(arr).0;
      var t := GreedyPairs(r).0;
      forall k | 0 <= k < |g| ensures g[k].selected == "" && !g[k].applied {
        if k > 0 {
          assert g[k] == t[k - 1];
        }
      }
    }
  }

  // ---------------------------------------------------------------------------
  // Conflict scores (`teamMap`, `conflictScore`)
  // ---------------------------------------------------------------------------

  /** `group.forEach(c => { teamMap[c.name] = c.team || "" })`: a later entry overwrites an earlier one. */
  function TeamMap(group: seq<Competitor>): map<string, string>
  {
    if group == [] then map[]
    else TeamMap(group[..|group| - 1])[group[|group| - 1].name := group[|group| - 1].team]
  }

  /** `teamMap[name]`, where a name that is absent reads as `undefined`, which is falsy like "". */
  function TeamOf(tm: map<string, string>, n: string): string
  {
    if n in tm then tm[n] else ""
  }

  /** `conflictScore(p)`: 0 for a bye or when either team is empty, else 1 exactly when the teams are equal. */
  function ConflictScore(tm: map<string, string>, p: Pairing): nat
  {
    if p.comp2.Bye? then 0
    else
      var t1 := TeamOf(tm, p.comp1);
      var t2 := TeamOf(tm, p.comp2.name);
      if t1 == "" || t2 == "" then 0
      else if t1 == t2 then 1 else 0
  }

  /** The summed conflict score of a list of pairings. */
  function TotalScore(ps: seq<Pairing>, tm: map<string, string>): nat
  {
    if ps == [] then 0 else TotalScore(ps[..|ps| - 1], tm) + ConflictScore(tm, ps[|ps| - 1])
  }

  /** Pairings whose two teams are strictly equal, the empty team included (what the greedy pass counts). */
  function SameTeamPairs(ps: seq<Pairing>, tm: map<string, string>): nat
  {
    if ps == [] then 0
    else
      var p := ps[|ps| - 1];
      SameTeamPairs(ps[..|ps| - 1], tm)
        + (if p.comp2.Opp? && TeamOf(tm, p.comp1) == TeamOf(tm, p.comp2.name) then 1 else 0)
  }

  /** The map records every competitor's team. */
  ghost predicate TeamsAgree(cs: seq<Competitor>, tm: map<string, string>)
  {
    forall c :: c in cs ==> c.name in tm && tm[c.name] == c.team
  }

  lemma {:induction false} TeamMapAgrees(group: seq<Competitor>)
    requires UniqueNames(group)
    ensures TeamsAgree(group, TeamMap(group))
  {
    if group != [] {
      var init := group[..|group| - 1];
      var last := group[|group| - 1];
      assert UniqueNames(init);
      TeamMapAgrees(init);
      forall c | c in group ensures c.name in TeamMap(group) && TeamMap(group)[c.name] == c.team {
        if c != last {
          var i :| 0 <= i < |group| && group[i] == c;
          if i == |group| - 1 {
          } else {
            assert group[i].name != group[|group| - 1].name;
            assert c in init;
          }
        }
      }
    }
  }

  lemma {:induction false} TotalScoreConcat(a: seq<Pairing>, b: seq<Pairing>, tm: map<string, string>)
    ensures TotalScore(a + b, tm) == TotalScore(a, tm) + TotalScore(b, tm)
  {
    if b == [] {
      assert a + b == a;
    } else {
      assert (a + b)[..|a + b| - 1] == a + b[..|b| - 1];
      TotalScoreConcat(a, b[..|b| - 1], tm);
    }
  }

  lemma {:induction false} SameTeamPairsConcat(a: seq<Pairing>, b: seq<Pairing>, tm: map<string, string>)
    ensures SameTeamPairs(a + b, tm) == SameTeamPairs(a, tm) + SameTeamPairs(b, tm)
  {
    if b == [] {
      assert a + b == a;
    } else {
      assert (a + b)[..|a + b| - 1] == a + b[..|b| - 1];
      SameTeamPairsConcat(a, b[..|b| - 1], tm);
    }
  }

  /** Changing one pairing changes the summed score by that pairing's difference. */
  lemma {:induction false} TotalScoreUpdate(ps: seq<Pairing>, k: nat, p: Pairing, tm: map<string, string>)
    requires k < |ps|
    ensures TotalScore(ps[k := p], tm) + ConflictScore(tm, ps[k]) == TotalScore(ps, tm) + ConflictScore(tm, p)
  {
    var front := ps[..k];
    var back := ps[k + 1..];
    assert ps == front + [ps[k]] + back;
    assert ps[k := p] == front + [p] + back;
    TotalScoreConcat(front + [ps[k]], back, tm);
    TotalScoreConcat(front + [p], back, tm);
    TotalScoreConcat(front, [ps[k]], tm);
    TotalScoreConcat(front, [p], tm);
    assert TotalScore([p], tm) == ConflictScore(tm, p) by { assert [p][..0] == []; }
    assert TotalScore([ps[k]], tm) == ConflictScore(tm, ps[k]) by { assert [ps[k]][..0] == []; }
  }

  /** The score never exceeds the strict same-team count: it only drops pairs with an empty team. */
  lemma {:induction false} ScoreAtMostSameTeam(ps: seq<Pairing>, tm: map<string, string>)
    ensures TotalScore(ps, tm) <= SameTeamPairs(ps, tm)
  {
    if ps != [] {
      ScoreAtMostSameTeam(ps[..|ps| - 1], tm);
    }
  }

  /** The greedy conflict count is the number of its pairs whose two teams are strictly equal. */
  lemma {:induction false} GreedyConflictsCount(arr: seq<Competitor>, tm: map<string, string>)
    requires TeamsAgree(arr, tm)
    ensures GreedyPairs(arr).1 == SameTeamPairs(GreedyPairs(arr).0, tm)
    decreases |arr|
  {
    if |arr| == 1 {
      assert [Match(arr[0].name, Bye)][..0] == [];
    } else if |arr| > 1 {
      var r := Remaining(arr);
      var b := arr[PartnerIndex(arr)];
      RemainingFromOrder(arr);
      GreedyConflictsCount(r, tm);
      GreedyUnfold(arr);
      var head := [Match(arr[0].name, Opp(b.name))];
      SameTeamPairsConcat(head, GreedyPairs(r).0, tm);
      assert head[..0] == [];
      assert TeamOf(tm, arr[0].name) == arr[0].team && TeamOf(tm, b.name) == b.team;
      ForcedIffSameTeam(arr);
    }
  }

  /** Both teams of a pairing are known and equal. */
  predicate SameTeam(tm: map<string, string>, p: Pairing)
  {
    p.comp2.Opp? && TeamOf(tm, p.comp1) == TeamOf(tm, p.comp2.name)
  }

  /** Every name seated at the pairing has the given team. */
  predicate SeatsTeam(tm: map<string, string>, p: Pairing, team: string)
  {
    TeamOf(tm, p.comp1) == team && (p.comp2.Opp? ==> TeamOf(tm, p.comp2.name) == team)
  }

  /** After a same-team pairing, every later pairing seats only that team. */
  ghost predicate ConflictsOnlyAtEnd(ps: seq<Pairing>, tm: map<string, string>)
  {
    forall k, l :: 0 <= k < l < |ps| && SameTeam(tm, ps[k]) ==> SeatsTeam(tm, ps[l], TeamOf(tm, ps[k].comp1))
  }

  lemma ConflictsOnlyAtEndCons(m: Pairing, t: seq<Pairing>, tm: map<string, string>)
    requires ConflictsOnlyAtEnd(t, tm)
    requires SameTeam(tm, m) ==> forall i :: 0 <= i < |t| ==> SeatsTeam(tm, t[i], TeamOf(tm, m.comp1))
    ensures ConflictsOnlyAtEnd([m] + t, tm)
  {
    var g := [m] + t;
    forall k, l | 0 <= k < l < |g| && SameTeam(tm, g[k]) ensures SeatsTeam(tm, g[l], TeamOf(tm, g[k].comp1)) {
      assert g[l] == t[l - 1];
      if k > 0 {
        assert g[k] == t[k - 1];
      }
    }
  }

  /**
   * A same-team pairing is made only when no competitor of another team is
   * left: every competitor seated after it has the same team.
   */
  lemma {:induction false} GreedyConflictOnlyWhenForced(arr: seq<Competitor>, tm: map<string, string>)
    requires TeamsAgree(arr, tm)
    ensures ConflictsOnlyAtEnd(GreedyPairs(arr).0, tm)
    decreases |arr|
  {
    if |arr| > 1 {
      var r := Remaining(arr);
      var m := Match(arr[0].name, Opp(arr[PartnerIndex(arr)].name));
      GreedyUnfold(arr);
      TeamsAgreeRemaining(arr, tm);
      GreedyConflictOnlyWhenForced(r, tm);
      if SameTeam(tm, m) {
        FirstConflictForcesRest(arr, tm);
      }
      ConflictsOnlyAtEndCons(m, GreedyPairs(r).0, tm);
    }
  }

  /** The first greedy pairing is same-team only if everyone seated later has that team. */
  lemma FirstConflictForcesRest(arr: seq<Competitor>, tm: map<string, string>)
    requires |arr| > 1 && TeamsAgree(arr, tm)
    requires TeamOf(tm, arr[0].name) == TeamOf(tm, arr[PartnerIndex(arr)].name)
    ensures forall i :: 0 <= i < |GreedyPairs(Remaining(arr)).0| ==>
              SeatsTeam(tm, GreedyPairs(Remaining(arr)).0[i], TeamOf(tm, arr[0].name))
  {
    var b := arr[PartnerIndex(arr)];
    assert arr[0] in arr && b in arr;
    ForcedIffSameTeam(arr);
    ForcedAllSameTeam(arr);
    TeamsAgreeRemaining(arr, tm);
    var sub := GreedyPairs(Remaining(arr)).0;
    forall i | 0 <= i < |sub| ensures SeatsTeam(tm, sub[i], TeamOf(tm, arr[0].name)) {
      FromRemaining(Remaining(arr), sub, i, tm, arr[0].team);
    }
  }

  lemma TeamsAgreeRemaining(arr: seq<Competitor>, tm: map<string, string>)
    requires |arr| > 1 && TeamsAgree(arr, tm)
    ensures TeamsAgree(Remaining(arr), tm)
  {
    RemainingFromOrder(arr);
  }

  /** The names seated at one greedy pairing belong to competitors of the order. */
  lemma FromRemaining(r: seq<Competitor>, sub: seq<Pairing>, i: nat, tm: map<string, string>, team: string)
    requires sub == GreedyPairs(r).0 && i < |sub|
    requires TeamsAgree(r, tm)
    requires forall c :: c in r ==> c.team == team
    ensures TeamOf(tm, sub[i].comp1) == team
    ensures sub[i].comp2.Opp? ==> TeamOf(tm, sub[i].comp2.name) == team
  {
    var q := sub[i];
    GreedyCovers(r);
    SeatedInParticipants(sub, i);
    var x := NamesMember(r, q.comp1);
    assert r[x] in r;
    if q.comp2.Opp? {
      var y := NamesMember(r, q.comp2.name);
      assert r[y] in r;
    }
  }

  /**
   * The discrepancy between the two conflict notions: two competitors without a
   * team count as one greedy conflict, although their conflict score is 0.
   */
  lemma EmptyTeamsCountAsConflict()
    ensures var group := [Competitor("a", "", 0, 0, None), Competitor("b", "", 0, 0, None)];
            GreedyPairs(group) == ([Match("a", Opp("b"))], 1)
            && TotalScore(GreedyPairs(group).0, TeamMap(group)) == 0
  {
    var group := [Competitor("a", "", 0, 0, None), Competitor("b", "", 0, 0, None)];
    assert FindOtherTeam(group[1..][1..], "") == -1;
    assert FindOtherTeam(group[1..], "") == -1;
    assert PartnerIndex(group) == 1 && Forced(group);
    assert Remaining(group) == [];
    GreedyUnfold(group);
    var ps := [Match("a", Opp("b"))];
    assert GreedyPairs([]) == ([], 0);
    assert ps + [] == ps;
    assert group[..1] == [group[0]] && [group[0]][..0] == [];
    assert TeamMap(group) == map["a" := "", "b" := ""];
    assert ps[..0] == [];
    assert TotalScore(ps, TeamMap(group)) == ConflictScore(TeamMap(group), ps[0]);
  }
}
