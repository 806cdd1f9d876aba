/**
 * The round lifecycle of main.js: the tournament state (roster, current
 * pairings, the started / finished / tiebreak flags, the round number and the
 * elimination threshold) and its transitions — roster edits, the eager apply
 * and revert of a selected winner, finalizing a round, and the second/third
 * tiebreak. The pure rules each transition follows come first; the class
 * `Tournament` applies them to its fields.
 */
module Lifecycle {
  import opened Wrappers
  import opened Records
  import opened Matcher
  import opened Partitioner
  import opened Standings

  // ---------------------------------------------------------------------------
  // The elimination threshold
  // ---------------------------------------------------------------------------

  /** The threshold before the field is edited: `parseInt(...) || 2` falls back to 2. */
  const DefaultThreshold: nat := 2

  /**
   * The change handler of the threshold field. `value` is the result of
   * `parseInt`, `None` for `NaN`; the result is clamped into 1..10.
   */
  function ClampThreshold(value: Option<int>): (t: nat)
    ensures 1 <= t <= 10
    ensures value.Some? && 1 <= value.value <= 10 ==> t == value.value
    ensures value.None? || value.value < 1 ==> t == 1
    ensures value.Some? && value.value > 10 ==> t == 10
  {
    if value.None? || value.value < 1 then 1
    else if value.value > 10 then 10
    else value.value
  }

  // ---------------------------------------------------------------------------
  // Selecting winners
  // ---------------------------------------------------------------------------

  /** A real match whose winner has been selected (`pair.selected && pair.comp2 !== "BYE"`). */
  predicate Decided(p: Pairing)
  {
    p.selected != "" && p.comp2.Opp?
  }

  /** The loser of a decided match: the seat the selected winner does not hold. */
  function Loser(p: Pairing): string
    requires p.comp2.Opp?
  {
    if p.selected == p.comp1 then p.comp2.name else p.comp1
  }

  /** `Math.max(0, x - 1)`. */
  function Decrement(x: nat): (r: nat)
    ensures r == if x == 0 then 0 else x - 1
  {
    if x - 1 < 0 then 0 else x - 1
  }

  /** The apply step on one roster entry: a win for the winner, a loss for the loser. */
  function Credit(c: Competitor, winner: string, loser: string): Competitor
  {
    c.(wins := if c.name == winner then c.wins + 1 else c.wins,
       losses := if c.name == loser then c.losses + 1 else c.losses)
  }

  /** The revert step on one roster entry, never below zero. */
  function Debit(c: Competitor, winner: string, loser: string): Competitor
  {
    c.(wins := if c.name == winner then Decrement(c.wins) else c.wins,
       losses := if c.name == loser then Decrement(c.losses) else c.losses)
  }

  /** `competitors.forEach(...)` with the apply step. */
  function Credited(cs: seq<Competitor>, winner: string, loser: string): (r: seq<Competitor>)
    ensures |r| == |cs|
  {
    seq(|cs|, k requires 0 <= k < |cs| => Credit(cs[k], winner, loser))
  }

  /** `competitors.forEach(...)` with the revert step. */
  function Debited(cs: seq<Competitor>, winner: string, loser: string): (r: seq<Competitor>)
    ensures |r| == |cs|
  {
    seq(|cs|, k requires 0 <= k < |cs| => Debit(cs[k], winner, loser))
  }

  /** The winner gains exactly one win, the loser exactly one loss; every other entry is untouched. */
  lemma CreditedRecords(cs: seq<Competitor>, winner: string, loser: string)
    requires winner != loser
    ensures Names(Credited(cs, winner, loser)) == Names(cs)
    ensures forall k :: 0 <= k < |cs| ==>
              var r := Credited(cs, winner, loser)[k];
              r.name == cs[k].name && r.team == cs[k].team && r.place == cs[k].place &&
              r.wins == cs[k].wins + (if cs[k].name == winner then 1 else 0) &&
              r.losses == cs[k].losses + (if cs[k].name == loser then 1 else 0)
  {
    NamesPreserved(cs, Credited(cs, winner, loser));
  }

  /** Reverting right after applying restores every record. */
  lemma DebitedCredited(cs: seq<Competitor>, winner: string, loser: string)
    ensures Debited(Credited(cs, winner, loser), winner, loser) == cs
  {
    var r := Debited(Credited(cs, winner, loser), winner, loser);
    assert forall k :: 0 <= k < |cs| ==> r[k] == cs[k];
  }

  /** Two rosters with the same name at every position have the same names. */
  lemma {:induction false} NamesPreserved(a: seq<Competitor>, b: seq<Competitor>)
    requires |a| == |b| && forall k :: 0 <= k < |a| ==> a[k].name == b[k].name
    ensures Names(a) == Names(b)
  {
    if a != [] {
      NamesPreserved(a[..|a| - 1], b[..|b| - 1]);
    }
  }

  /** The guard of `applySelectionForPair(index)`: a decided match not yet applied. */
  predicate Applies(ps: seq<Pairing>, index: nat)
  {
    index < |ps| && Decided(ps[index]) && !ps[index].applied
  }

  /** The guard of `revertSelectionForPair(index)`: a decided match already applied. */
  predicate Reverts(ps: seq<Pairing>, index: nat)
  {
    index < |ps| && Decided(ps[index]) && ps[index].applied
  }

  /** Roster and pairings after `applySelectionForPair(index)`. */
  function ApplyAt(cs: seq<Competitor>, ps: seq<Pairing>, index: nat): (seq<Competitor>, seq<Pairing>)
  {
    if Applies(ps, index) then
      (Credited(cs, ps[index].selected, Loser(ps[index])), ps[index := ps[index].(applied := true)])
    else (cs, ps)
  }

  /** Roster and pairings after `revertSelectionForPair(index)`. */
  function RevertAt(cs: seq<Competitor>, ps: seq<Pairing>, index: nat): (seq<Competitor>, seq<Pairing>)
  {
    if Reverts(ps, index) then
      (Debited(cs, ps[index].selected, Loser(ps[index])), ps[index := ps[index].(applied := false)])
    else (cs, ps)
  }

  /** Applying twice is applying once. */
  lemma ApplyIdempotent(cs: seq<Competitor>, ps: seq<Pairing>, index: nat)
    ensures var (cs1, ps1) := ApplyAt(cs, ps, index);
            ApplyAt(cs1, ps1, index) == (cs1, ps1)
  {
  }

  /** A revert right after an apply restores roster and pairings, unless the pairing was already applied. */
  lemma RevertUndoesApply(cs: seq<Competitor>, ps: seq<Pairing>, index: nat)
    requires !Reverts(ps, index)
    ensures var (cs1, ps1) := ApplyAt(cs, ps, index);
            RevertAt(cs1, ps1, index) == (cs, ps)
  {
    if Applies(ps, index) {
      DebitedCredited(cs, ps[index].selected, Loser(ps[index]));
      assert ps[index := ps[index].(applied := true)][index := ps[index]] == ps;
    }
  }

  /** Roster and pairings after a winner is chosen in the selector of pairing `index`. */
  function SelectAt(cs: seq<Competitor>, ps: seq<Pairing>, index: nat, name: string): (seq<Competitor>, seq<Pairing>)
    requires index < |ps|
  {
    if name == "" then (cs, ps) else ApplyAt(cs, ps[index := ps[index].(selected := name)], index)
  }

  /** Roster and pairings after the Reset button of pairing `index`. */
  function ResetAt(cs: seq<Competitor>, ps: seq<Pairing>, index: nat): (seq<Competitor>, seq<Pairing>)
    requires index < |ps|
  {
    if ps[index].comp2.Bye? then (cs, ps)
    else
      var (cs1, ps1) := RevertAt(cs, ps, index);
      (cs1, ps1[index := ps1[index].(selected := "", applied := false)])
  }

  /** Choosing a winner of an open match and resetting it restores roster and pairings. */
  lemma ResetUndoesSelect(cs: seq<Competitor>, ps: seq<Pairing>, index: nat, name: string)
    requires index < |ps| && ps[index].comp2.Opp? && ps[index].selected == "" && !ps[index].applied
    ensures var (cs1, ps1) := SelectAt(cs, ps, index, name);
            |ps1| == |ps| && ResetAt(cs1, ps1, index) == (cs, ps)
  {
    if name != "" {
      var chosen := ps[index := ps[index].(selected := name)];
      RevertUndoesApply(cs, chosen, index);
      var (cs1, ps1) := ApplyAt(cs, chosen, index);
      assert RevertAt(cs1, ps1, index) == (cs, chosen);
      assert chosen[index := chosen[index].(selected := "", applied := false)] == ps;
    } else {
      assert ps[index := ps[index].(selected := "", applied := false)] == ps;
    }
  }

  // ---------------------------------------------------------------------------
  // Finalizing
  // ---------------------------------------------------------------------------

  /** `hasAllSelections()`: a non-empty round in which every real match has a winner. */
  predicate HasAllSelections(ps: seq<Pairing>)
  {
    ps != [] && forall k :: 0 <= k < |ps| ==> ps[k].comp2.Bye? || ps[k].selected != ""
  }

  /**
   * A round fresh from the pairing engine can be finalized straight away only
   * when it consists of byes alone.
   */
  lemma FreshRoundSelections(ps: seq<Pairing>)
    requires AllFresh(ps)
    ensures HasAllSelections(ps) <==> ps != [] && forall k :: 0 <= k < |ps| ==> ps[k].comp2.Bye?
  {
  }

  /** The winner and loser of the last decided match, "" and "" when no match is decided. */
  function LastDecided(ps: seq<Pairing>): (string, string)
  {
    if ps == [] then ("", "")
    else if Decided(ps[|ps| - 1]) then (ps[|ps| - 1].selected, Loser(ps[|ps| - 1]))
    else LastDecided(ps[..|ps| - 1])
  }

  /** The position of the last decided match, -1 when no match is decided. */
  function LastDecidedIndex(ps: seq<Pairing>): (r: int)
    ensures -1 <= r < |ps|
    ensures r >= 0 ==> Decided(ps[r])
    ensures forall j :: r < j < |ps| ==> !Decided(ps[j])
  {
    if ps == [] then -1
    else if Decided(ps[|ps| - 1]) then |ps| - 1
    else LastDecidedIndex(ps[..|ps| - 1])
  }

  /** `LastDecided` reports the decided match behind which no match is decided. */
  lemma {:induction false} LastDecidedIsLast(ps: seq<Pairing>)
    ensures var k := LastDecidedIndex(ps);
            LastDecided(ps) == if k < 0 then ("", "") else (ps[k].selected, Loser(ps[k]))
  {
    if ps != [] && !Decided(ps[|ps| - 1]) {
      var init := ps[..|ps| - 1];
      LastDecidedIsLast(init);
      var k := LastDecidedIndex(init);
      assert k >= 0 ==> init[k] == ps[k];
    }
  }

  /** `b` is `a` with at most the places changed. */
  predicate OnlyPlaces(a: seq<Competitor>, b: seq<Competitor>)
  {
    |a| == |b| && forall k :: 0 <= k < |b| ==> b[k].(place := a[k].place) == a[k]
  }

  lemma OnlyPlacesTransitive(a: seq<Competitor>, b: seq<Competitor>, c: seq<Competitor>)
    requires OnlyPlaces(a, b) && OnlyPlaces(b, c)
    ensures OnlyPlaces(a, c)
  {
    forall k | 0 <= k < |c|
      ensures c[k].(place := a[k].place) == a[k]
    {
      assert c[k].(place := b[k].place) == b[k];
    }
  }

  /** `competitors.find(c => c.name === n).place = p`, nothing when no entry has that name. */
  function SetPlace(cs: seq<Competitor>, n: string, p: nat): (r: seq<Competitor>)
    ensures OnlyPlaces(cs, r)
  {
    match Find(cs, n)
    case None => cs
    case Some(k) => cs[k := cs[k].(place := Some(p))]
  }

  /** With unique names, exactly the entry named `n` gets place `p`. */
  lemma SetPlaceEffect(cs: seq<Competitor>, n: string, p: nat)
    requires UniqueNames(cs)
    ensures forall k :: 0 <= k < |cs| ==>
              SetPlace(cs, n, p)[k] == if cs[k].name == n then cs[k].(place := Some(p)) else cs[k]
  {
  }

  /** Setting places changes nothing but places. */
  lemma SetPlaceKeepsScores(cs: seq<Competitor>, n: string, p: nat)
    ensures forall k :: 0 <= k < |cs| ==> SetPlace(cs, n, p)[k].(place := None) == cs[k].(place := None)
    ensures Names(SetPlace(cs, n, p)) == Names(cs)
  {
    NamesPreserved(cs, SetPlace(cs, n, p));
  }

  /** The places set at the end of a tiebreak, when both names are known. */
  function TiebreakPlaces(cs: seq<Competitor>, winner: string, loser: string): (r: seq<Competitor>)
    ensures OnlyPlaces(cs, r)
  {
    if winner != "" && loser != "" then SetPlace(SetPlace(cs, winner, 2), loser, 3) else cs
  }

  /** The place of the sole active competitor at the end of the competition. */
  function ChampionPlace(cs: seq<Competitor>, t: nat): (r: seq<Competitor>)
    ensures OnlyPlaces(cs, r)
  {
    var active := Active(cs, t);
    if |active| == 1 then SetPlace(cs, active[0].name, 1) else cs
  }

  /** The champion is the one competitor below the threshold, and only that entry changes. */
  lemma ChampionIsSoleActive(cs: seq<Competitor>, t: nat)
    requires UniqueNames(cs) && |Active(cs, t)| == 1
    ensures forall k :: 0 <= k < |cs| ==>
              ChampionPlace(cs, t)[k] == if cs[k].losses < t then cs[k].(place := Some(1)) else cs[k]
  {
    var champ := Active(cs, t)[0];
    ActiveMembers(cs, t);
    SetPlaceEffect(cs, champ.name, 1);
    forall k | 0 <= k < |cs|
      ensures cs[k].name == champ.name <==> cs[k].losses < t
    {
      if cs[k].name == champ.name {
        UniqueNamesSame(cs, cs[k], champ);
      }
      if cs[k].losses < t {
        ActiveHolds(cs, t, k);
        UniqueNamesSame(Active(cs, t), cs[k], champ);
      }
    }
  }

  /** Every roster entry below the threshold is active. */
  lemma ActiveHolds(cs: seq<Competitor>, t: nat, k: nat)
    requires k < |cs| && cs[k].losses < t
    ensures cs[k] in Active(cs, t)
  {
    ActiveMembers(cs, t);
    assert cs[k] in cs;
  }

  // ---------------------------------------------------------------------------
  // The page state
  // ---------------------------------------------------------------------------

  /**
   * The state kept by main.js between events. `storedKey` is the key saved with
   * the current pairings (`None` once they are cleared); `rng` is what is left
   * of the choice stream that drives the engine's shuffles.
   */
  class Tournament {
    var competitors: seq<Competitor>
    var currentPairings: seq<Pairing>
    var competitionStarted: bool
    var competitionFinished: bool
    var tiebreakerMode: bool
    var roundNumber: nat
    var eliminationThreshold: nat
    var storedKey: Option<PairingsKey>
    var rng: seq<nat>

    /** Names identify competitors, and the threshold lies in the range its field allows. */
    predicate Valid()
      reads this
    {
      UniqueNames(competitors) && 1 <= eliminationThreshold <= 10
    }

    /** A fresh page with nothing stored. */
    constructor (src: seq<nat>)
      ensures Valid()
      ensures competitors == [] && currentPairings == [] && storedKey == None && rng == src
      ensures !competitionStarted && !competitionFinished && !tiebreakerMode
      ensures roundNumber == 0 && eliminationThreshold == DefaultThreshold
    {
      competitors := [];
      currentPairings := [];
      competitionStarted := false;
      competitionFinished := false;
      tiebreakerMode := false;
      roundNumber := 0;
      eliminationThreshold := DefaultThreshold;
      storedKey := None;
      rng := src;
    }

    /**
     * The state half of `displayPairings()`: in a running competition outside a
     * tiebreak, the stored pairings are kept when their key matches the roster
     * and threshold, and are otherwise replaced by a fresh round from the engine.
     */
    method DisplayPairings()
      requires Valid()
      modifies this
      ensures Valid()
      ensures var regenerate := competitionStarted && !tiebreakerMode && old(storedKey) != Some(KeyOf(competitors, eliminationThreshold));
              (regenerate ==> (currentPairings, rng) == PairAll(competitors, eliminationThreshold, old(rng))
                              && storedKey == Some(KeyOf(competitors, eliminationThreshold)))
              && (!regenerate ==> currentPairings == old(currentPairings) && rng == old(rng) && storedKey == old(storedKey))
      ensures competitors == old(competitors) && eliminationThreshold == old(eliminationThreshold)
      ensures competitionStarted == old(competitionStarted) && competitionFinished == old(competitionFinished)
      ensures tiebreakerMode == old(tiebreakerMode) && roundNumber == old(roundNumber)
    {
      currentPairings, rng, storedKey :=
        RefreshPairings(competitors, eliminationThreshold, competitionStarted, tiebreakerMode, storedKey, currentPairings, rng);
    }

    /** The threshold field's change handler: clamp, and re-display a running round. */
    method SetThreshold(value: Option<int>)
      requires Valid()
      modifies this
      ensures Valid()
      ensures eliminationThreshold == ClampThreshold(value)
      ensures var regenerate := competitionStarted && !tiebreakerMode && old(storedKey) != Some(KeyOf(competitors, eliminationThreshold));
              (regenerate ==> (currentPairings, rng) == PairAll(competitors, eliminationThreshold, old(rng))
                              && storedKey == Some(KeyOf(competitors, eliminationThreshold)))
              && (!regenerate ==> currentPairings == old(currentPairings) && rng == old(rng) && storedKey == old(storedKey))
      ensures competitors == old(competitors)
      ensures competitionStarted == old(competitionStarted) && competitionFinished == old(competitionFinished)
      ensures tiebreakerMode == old(tiebreakerMode) && roundNumber == old(roundNumber)
    {
      eliminationThreshold := ClampThreshold(value);
      if competitionStarted {
        DisplayPairings();
      }
    }

    /** `addCompetitor(name, team)`: a new 0–0 entry, refused for an empty or taken name. */
    method AddCompetitor(name: string, team: string) returns (r: Outcome<string>)
      requires Valid()
      modifies this
      ensures Valid()
      ensures r.Pass? <==> name != "" && forall c :: c in old(competitors) ==> c.name != name
      ensures r.Pass? ==> competitors == old(competitors) + [Competitor(name, team, 0, 0, None)]
      ensures r.Fail? ==> competitors == old(competitors)
      ensures currentPairings == old(currentPairings) && storedKey == old(storedKey) && rng == old(rng)
      ensures competitionStarted == old(competitionStarted) && competitionFinished == old(competitionFinished)
      ensures tiebreakerMode == old(tiebreakerMode) && roundNumber == old(roundNumber)
      ensures eliminationThreshold == old(eliminationThreshold)
    {
      if name == "" {
        return Fail("Name is required");
      }
      if Find(competitors, name).Some? {
        return Fail("Competitor already exists");
      }
      UniqueNamesAppend(competitors, Competitor(name, team, 0, 0, None));
      competitors := competitors + [Competitor(name, team, 0, 0, None)];
      r := Pass;
    }

    /**
     * `removeCompetitor(name)`: removes the entry with that name, refused for an
     * empty or unknown name. An emptied roster stops the competition.
     */
    method RemoveCompetitor(name: string) returns (r: Outcome<string>)
      requires Valid()
      modifies this
      ensures Valid()
      ensures r.Pass? <==> name != "" && exists c :: c in old(competitors) && c.name == name
      ensures r.Pass? ==> competitors == WithoutName(old(competitors), name) && |competitors| == |old(competitors)| - 1
      ensures r.Pass? ==> competitionStarted == (old(competitionStarted) && competitors != [])
      ensures r.Fail? ==> competitors == old(competitors) && competitionStarted == old(competitionStarted)
      ensures currentPairings == old(currentPairings) && storedKey == old(storedKey) && rng == old(rng)
      ensures competitionFinished == old(competitionFinished)
      ensures tiebreakerMode == old(tiebreakerMode) && roundNumber == old(roundNumber)
      ensures eliminationThreshold == old(eliminationThreshold)
    {
      if name == "" {
        return Fail("Enter a name to remove");
      }
      var index := Find(competitors, name);
      if index.None? {
        return Fail("Competitor not found");
      }
      var k := index.value;
      WithoutNameRemovesOne(competitors, k);
      RemovedUnique(competitors, k);
      competitors := competitors[..k] + competitors[k + 1..];
      if competitors == [] {
        competitionStarted := false;
      }
      r := Pass;
    }

    /**
     * `applySelectionForPair(index)`: credits the selected winner and the loser
     * of pairing `index` and marks it applied; nothing for a bye, an open match
     * or a result already applied.
     */
    method ApplySelectionForPair(index: nat)
      requires Valid()
      modifies this
      ensures Valid()
      ensures (competitors, currentPairings) == ApplyAt(old(competitors), old(currentPairings), index)
      ensures storedKey == if Applies(old(currentPairings), index) then Some(KeyOf(competitors, eliminationThreshold)) else old(storedKey)
      ensures competitionStarted == (old(competitionStarted) && (competitors != [] || !Applies(old(currentPairings), index)))
      ensures competitionFinished == old(competitionFinished) && tiebreakerMode == old(tiebreakerMode)
      ensures roundNumber == old(roundNumber) && eliminationThreshold == old(eliminationThreshold) && rng == old(rng)
    {
      var roster, pairings, changed := ApplyStep(competitors, currentPairings, index);
      if changed {
        ApplyAtUnique(competitors, currentPairings, index);
        competitors, currentPairings := roster, pairings;
        storedKey := Some(KeyOf(competitors, eliminationThreshold));
        if competitors == [] {
          competitionStarted := false;
        }
      }
    }

    /**
     * `revertSelectionForPair(index)`: takes back the win and the loss credited
     * for pairing `index`, never below zero, and marks it unapplied; nothing
     * unless the result was applied.
     */
    method RevertSelectionForPair(index: nat)
      requires Valid()
      modifies this
      ensures Valid()
      ensures (competitors, currentPairings) == RevertAt(old(competitors), old(currentPairings), index)
      ensures storedKey == if Reverts(old(currentPairings), index) then Some(KeyOf(competitors, eliminationThreshold)) else old(storedKey)
      ensures competitionStarted == (old(competitionStarted) && (competitors != [] || !Reverts(old(currentPairings), index)))
      ensures competitionFinished == old(competitionFinished) && tiebreakerMode == old(tiebreakerMode)
      ensures roundNumber == old(roundNumber) && eliminationThreshold == old(eliminationThreshold) && rng == old(rng)
    {
      var roster, pairings, changed := RevertStep(competitors, currentPairings, index);
      if changed {
        RevertAtUnique(competitors, currentPairings, index);
        competitors, currentPairings := roster, pairings;
        storedKey := Some(KeyOf(competitors, eliminationThreshold));
        if competitors == [] {
          competitionStarted := false;
        }
      }
    }

    /**
     * The change handler of the winner selector of pairing `index`, which offers
     * the two seated names while the match has no result.
     */
    method SelectWinner(index: nat, name: string)
      requires Valid() && index < |currentPairings|
      requires currentPairings[index].comp2.Opp? && currentPairings[index].selected == "" && !currentPairings[index].applied
      requires name == "" || name == currentPairings[index].comp1 || name == currentPairings[index].comp2.name
      modifies this
      ensures Valid()
      ensures (competitors, currentPairings) == SelectAt(old(competitors), old(currentPairings), index, name)
      ensures storedKey == if name != "" then Some(KeyOf(competitors, eliminationThreshold)) else old(storedKey)
      ensures competitionStarted == (old(competitionStarted) && (competitors != [] || name == ""))
      ensures competitionFinished == old(competitionFinished) && tiebreakerMode == old(tiebreakerMode)
      ensures roundNumber == old(roundNumber) && eliminationThreshold == old(eliminationThreshold) && rng == old(rng)
    {
      if name != "" {
        currentPairings := currentPairings[index := currentPairings[index].(selected := name)];
        ApplySelectionForPair(index);
      }
    }

    /** The handler of the Reset button of pairing `index`: revert, then clear the selection. */
    method ResetSelection(index: nat)
      requires Valid() && index < |currentPairings|
      modifies this
      ensures Valid()
      ensures (competitors, currentPairings) == ResetAt(old(competitors), old(currentPairings), index)
      ensures storedKey == if old(currentPairings)[index].comp2.Opp? then Some(KeyOf(competitors, eliminationThreshold)) else old(storedKey)
      ensures competitionStarted == (old(competitionStarted) && (competitors != [] || !Reverts(old(currentPairings), index)))
      ensures competitionFinished == old(competitionFinished) && tiebreakerMode == old(tiebreakerMode)
      ensures roundNumber == old(roundNumber) && eliminationThreshold == old(eliminationThreshold) && rng == old(rng)
    {
      if currentPairings[index].comp2.Opp? {
        RevertSelectionForPair(index);
        currentPairings := currentPairings[index := currentPairings[index].(selected := "", applied := false)];
        storedKey := Some(KeyOf(competitors, eliminationThreshold));
      }
    }

    /**
     * The Begin button's handler, which the page enables only with an unfinished,
     * not yet started competition of at least two active competitors.
     */
    method Begin()
      requires Valid() && |Active(competitors, eliminationThreshold)| >= 2
      requires !competitionStarted && !competitionFinished
      modifies this
      ensures Valid()
      ensures competitionStarted && !competitionFinished && roundNumber == 1
      ensures var regenerate := !tiebreakerMode && old(storedKey) != Some(KeyOf(competitors, eliminationThreshold));
              (regenerate ==> (currentPairings, rng) == PairAll(competitors, eliminationThreshold, old(rng))
                              && storedKey == Some(KeyOf(competitors, eliminationThreshold)))
              && (!regenerate ==> currentPairings == old(currentPairings) && rng == old(rng) && storedKey == old(storedKey))
      ensures competitors == old(competitors) && eliminationThreshold == old(eliminationThreshold)
      ensures tiebreakerMode == old(tiebreakerMode)
    {
      competitionStarted := true;
      roundNumber := 1;
      competitionFinished := false;
      DisplayPairings();
    }

    /** The end of `finalizeRound()` in a tiebreak: places 2 and 3, and the competition is finished. */
    method CloseTiebreak(lastWinner: string, lastLoser: string)
      requires Valid()
      modifies this
      ensures Valid()
      ensures competitors == TiebreakPlaces(old(competitors), lastWinner, lastLoser)
      ensures currentPairings == [] && storedKey == None && rng == old(rng)
      ensures !tiebreakerMode && !competitionStarted && competitionFinished
      ensures roundNumber == old(roundNumber) && eliminationThreshold == old(eliminationThreshold)
    {
      if lastWinner != "" && lastLoser != "" {
        competitors := SetPlace(competitors, lastWinner, 2);
        competitors := SetPlace(competitors, lastLoser, 3);
      }
      PlacesKeepUnique(old(competitors), competitors);
      storedKey := None;
      currentPairings := [];
      tiebreakerMode := false;
      competitionStarted := false;
      competitionFinished := true;
    }

    /** The end of `finalizeRound()` outside a tiebreak: clear the round, then go on or finish. */
    method CloseRound()
      requires Valid() && !tiebreakerMode
      modifies this
      ensures Valid()
      ensures |Active(old(competitors), eliminationThreshold)| > 1 ==>
                competitors == old(competitors)
                && roundNumber == (if old(roundNumber) < 1 then 1 else old(roundNumber)) + 1
                && competitionStarted == old(competitionStarted) && competitionFinished == old(competitionFinished)
                && (competitionStarted ==> (currentPairings, rng) == PairAll(competitors, eliminationThreshold, old(rng))
                                           && storedKey == Some(KeyOf(competitors, eliminationThreshold)))
                && (!competitionStarted ==> currentPairings == [] && storedKey == None && rng == old(rng))
      ensures |Active(old(competitors), eliminationThreshold)| <= 1 ==>
                competitors == ChampionPlace(old(competitors), eliminationThreshold)
                && currentPairings == [] && storedKey == None && rng == old(rng)
                && !competitionStarted && competitionFinished && roundNumber == old(roundNumber)
      ensures OnlyPlaces(old(competitors), competitors)
      ensures !tiebreakerMode && eliminationThreshold == old(eliminationThreshold)
    {
      if competitors == [] {
        competitionStarted := false;
      }
      storedKey := None;
      currentPairings := [];
      NextRoundOrFinish();
    }

    /**
     * The end of `finalizeRound()` outside a tiebreak, once the pairings are
     * cleared: with more than one competitor active the round number advances
     * and the next round is displayed; otherwise the competition is finished
     * and a sole active competitor takes first place.
     */
    method NextRoundOrFinish()
      requires Valid() && !tiebreakerMode && currentPairings == [] && storedKey == None
      modifies this
      ensures Valid()
      ensures |Active(old(competitors), eliminationThreshold)| > 1 ==>
                competitors == old(competitors)
                && roundNumber == (if old(roundNumber) < 1 then 1 else old(roundNumber)) + 1
                && competitionStarted == old(competitionStarted) && competitionFinished == old(competitionFinished)
                && (competitionStarted ==> (currentPairings, rng) == PairAll(competitors, eliminationThreshold, old(rng))
                                           && storedKey == Some(KeyOf(competitors, eliminationThreshold)))
                && (!competitionStarted ==> currentPairings == [] && storedKey == None && rng == old(rng))
      ensures |Active(old(competitors), eliminationThreshold)| <= 1 ==>
                competitors == ChampionPlace(old(competitors), eliminationThreshold)
                && currentPairings == [] && storedKey == None && rng == old(rng)
                && !competitionStarted && competitionFinished && roundNumber == old(roundNumber)
      ensures OnlyPlaces(old(competitors), competitors)
      ensures !tiebreakerMode && eliminationThreshold == old(eliminationThreshold)
    {
      if |Active(competitors, eliminationThreshold)| > 1 {
        roundNumber := (if roundNumber < 1 then 1 else roundNumber) + 1;
        DisplayPairings();
      } else {
        competitionStarted := false;
        competitionFinished := true;
        var active := Active(competitors, eliminationThreshold);
        if |active| == 1 {
          competitors := SetPlace(competitors, active[0].name, 1);
        }
        PlacesKeepUnique(old(competitors), competitors);
        storedKey := None;
      }
    }

    /**
     * `finalizeRound()`: refused until every real match has a winner. A
     * tiebreak ends the competition with places 2 and 3; otherwise the next
     * round is paired while more than one competitor is active, and the
     * competition ends, crowning a sole survivor, when not.
     */
    method FinalizeRound() returns (r: Outcome<string>)
      requires Valid()
      modifies this
      ensures Valid()
      ensures r.Pass? <==> HasAllSelections(old(currentPairings))
      ensures r.Fail? ==> competitors == old(competitors) && currentPairings == old(currentPairings)
                          && storedKey == old(storedKey) && rng == old(rng)
                          && competitionStarted == old(competitionStarted) && competitionFinished == old(competitionFinished)
                          && tiebreakerMode == old(tiebreakerMode) && roundNumber == old(roundNumber)
      ensures OnlyPlaces(old(competitors), competitors)
      ensures r.Pass? && old(tiebreakerMode) ==>
                var (winner, loser) := LastDecided(old(currentPairings));
                competitors == TiebreakPlaces(old(competitors), winner, loser)
                && currentPairings == [] && storedKey == None && rng == old(rng)
                && !tiebreakerMode && !competitionStarted && competitionFinished && roundNumber == old(roundNumber)
      ensures r.Pass? && !old(tiebreakerMode) && |Active(old(competitors), eliminationThreshold)| > 1 ==>
                competitors == old(competitors) && !tiebreakerMode
                && roundNumber == (if old(roundNumber) < 1 then 1 else old(roundNumber)) + 1
                && competitionStarted == old(competitionStarted) && competitionFinished == old(competitionFinished)
                && (competitionStarted ==> (currentPairings, rng) == PairAll(competitors, eliminationThreshold, old(rng))
                                           && storedKey == Some(KeyOf(competitors, eliminationThreshold)))
                && (!competitionStarted ==> currentPairings == [] && storedKey == None && rng == old(rng))
      ensures r.Pass? && !old(tiebreakerMode) && |Active(old(competitors), eliminationThreshold)| <= 1 ==>
                competitors == ChampionPlace(old(competitors), eliminationThreshold)
                && currentPairings == [] && storedKey == None && rng == old(rng)
                && !tiebreakerMode && !competitionStarted && competitionFinished && roundNumber == old(roundNumber)
      ensures eliminationThreshold == old(eliminationThreshold)
    {
      if !HasAllSelections(currentPairings) {
        return Fail("Please select a winner for every match before finalizing.");
      }
      var lastWinner, lastLoser := LastResult(currentPairings, tiebreakerMode);
      if tiebreakerMode {
        CloseTiebreak(lastWinner, lastLoser);
        return Pass;
      }
      CloseRound();
      r := Pass;
    }

    /**
     * The tiebreak button's handler, which the page enables only once the
     * competition is finished and outside a tiebreak: when the second and third
     * of the standings tie, one match between them is set up as a new round.
     */
    method EnterTiebreak() returns (entered: bool)
      requires Valid() && competitionFinished && !tiebreakerMode
      modifies this
      ensures Valid()
      ensures entered <==> SecondThirdTie(old(competitors)).Some?
      ensures entered ==> var (second, third) := SecondThirdTie(old(competitors)).value;
                          currentPairings == [Match(second.name, Opp(third.name))] && storedKey == None
                          && tiebreakerMode && competitionStarted && !competitionFinished
      ensures !entered ==> currentPairings == old(currentPairings) && storedKey == old(storedKey)
                           && !tiebreakerMode && competitionStarted == old(competitionStarted) && competitionFinished
      ensures competitors == old(competitors) && roundNumber == old(roundNumber) && rng == old(rng)
      ensures eliminationThreshold == old(eliminationThreshold)
    {
      var tie := SecondThirdTie(competitors);
      if tie.None? {
        return false;
      }
      var (second, third) := tie.value;
      tiebreakerMode := true;
      competitionFinished := false;
      competitionStarted := true;
      currentPairings := [Match(second.name, Opp(third.name))];
      storedKey := None;
      DisplayPairings();
      entered := true;
    }
  }

  /**
   * The result loop of `finalizeRound()`: the winner and loser of the last
   * decided match, recorded only in a tiebreak.
   */
  method LastResult(ps: seq<Pairing>, tiebreak: bool) returns (lastWinner: string, lastLoser: string)
    ensures (lastWinner, lastLoser) == if tiebreak then LastDecided(ps) else ("", "")
  {
    lastWinner, lastLoser := "", "";
    var i := 0;
    while i < |ps|
      invariant 0 <= i <= |ps|
      invariant (lastWinner, lastLoser) == if tiebreak then LastDecided(ps[..i]) else ("", "")
    {
      var pair := ps[i];
      assert ps[..i + 1][..i] == ps[..i];
      if pair.comp2.Opp? && pair.selected != "" {
        var winner := pair.selected;
        var loser := if winner == pair.comp1 then pair.comp2.name else pair.comp1;
        if tiebreak {
          lastWinner, lastLoser := winner, loser;
        }
      }
      i := i + 1;
    }
    assert ps[..i] == ps;
  }

  /**
   * The decision of `displayPairings()`, on values: a running round outside a
   * tiebreak whose stored key `stored` does not match the roster and threshold
   * gets fresh pairings from the engine and the matching key.
   */
  method RefreshPairings(cs: seq<Competitor>, t: nat, started: bool, tiebreak: bool,
                         stored: Option<PairingsKey>, ps: seq<Pairing>, src: seq<nat>)
    returns (pairs: seq<Pairing>, rest: seq<nat>, key: Option<PairingsKey>)
    requires 1 <= t <= 10
    ensures var regenerate := started && !tiebreak && stored != Some(KeyOf(cs, t));
            (regenerate ==> (pairs, rest) == PairAll(cs, t, src) && key == Some(KeyOf(cs, t)))
            && (!regenerate ==> pairs == ps && rest == src && key == stored)
  {
    pairs, rest, key := ps, src, stored;
    if !started {
      return;
    }
    if !tiebreak {
      var current := KeyOf(cs, t);
      if stored != Some(current) {
        pairs, rest := PairCompetitors(cs, t, src);
        key := Some(current);
      }
    }
  }

  /**
   * The guards and the roster update of `applySelectionForPair(index)`, on
   * values: `changed` is whether the guards let the update through.
   */
  method ApplyStep(cs: seq<Competitor>, ps: seq<Pairing>, index: nat)
    returns (roster: seq<Competitor>, pairings: seq<Pairing>, changed: bool)
    ensures (roster, pairings) == ApplyAt(cs, ps, index) && changed == Applies(ps, index)
  {
    roster, pairings, changed := cs, ps, false;
    if index >= |ps| {
      return;
    }
    var pair := ps[index];
    if pair.selected == "" || pair.comp2.Bye? {
      return;
    }
    if pair.applied {
      return;
    }
    var winner := pair.selected;
    var loser := if winner == pair.comp1 then pair.comp2.name else pair.comp1;
    roster := CreditRoster(cs, winner, loser);
    pairings := ps[index := pair.(applied := true)];
    changed := true;
  }

  /** The guards and the roster update of `revertSelectionForPair(index)`, on values. */
  method RevertStep(cs: seq<Competitor>, ps: seq<Pairing>, index: nat)
    returns (roster: seq<Competitor>, pairings: seq<Pairing>, changed: bool)
    ensures (roster, pairings) == RevertAt(cs, ps, index) && changed == Reverts(ps, index)
  {
    roster, pairings, changed := cs, ps, false;
    if index >= |ps| {
      return;
    }
    var pair := ps[index];
    if pair.selected == "" || pair.comp2.Bye? {
      return;
    }
    if !pair.applied {
      return;
    }
    var winner := pair.selected;
    var loser := if winner == pair.comp1 then pair.comp2.name else pair.comp1;
    roster := DebitRoster(cs, winner, loser);
    pairings := ps[index := pair.(applied := false)];
    changed := true;
  }

  /** The apply loop: `competitors.forEach(...)` crediting the winner and the loser. */
  method CreditRoster(cs: seq<Competitor>, winner: string, loser: string) returns (roster: seq<Competitor>)
    ensures roster == Credited(cs, winner, loser)
  {
    roster := cs;
    var i := 0;
    while i < |roster|
      invariant 0 <= i <= |roster| == |cs|
      invariant forall k :: 0 <= k < i ==> roster[k] == Credit(cs[k], winner, loser)
      invariant forall k :: i <= k < |roster| ==> roster[k] == cs[k]
    {
      var c := roster[i];
      if c.name == winner {
        c := c.(wins := c.wins + 1);
      }
      if c.name == loser {
        c := c.(losses := c.losses + 1);
      }
      roster := roster[i := c];
      i := i + 1;
    }
  }

  /** The revert loop: `competitors.forEach(...)` taking back the win and the loss. */
  method DebitRoster(cs: seq<Competitor>, winner: string, loser: string) returns (roster: seq<Competitor>)
    ensures roster == Debited(cs, winner, loser)
  {
    roster := cs;
    var i := 0;
    while i < |roster|
      invariant 0 <= i <= |roster| == |cs|
      invariant forall k :: 0 <= k < i ==> roster[k] == Debit(cs[k], winner, loser)
      invariant forall k :: i <= k < |roster| ==> roster[k] == cs[k]
    {
      var c := roster[i];
      if c.name == winner {
        c := c.(wins := Decrement(c.wins));
      }
      if c.name == loser {
        c := c.(losses := Decrement(c.losses));
      }
      roster := roster[i := c];
      i := i + 1;
    }
  }

  /** A roster with the same name at every position keeps unique names. */
  lemma SameNamesUnique(a: seq<Competitor>, b: seq<Competitor>)
    requires UniqueNames(a) && |a| == |b|
    requires forall k :: 0 <= k < |b| ==> b[k].name == a[k].name
    ensures UniqueNames(b)
  {
  }

  /** Applying a result keeps the roster's names. */
  lemma ApplyAtUnique(cs: seq<Competitor>, ps: seq<Pairing>, index: nat)
    requires UniqueNames(cs)
    ensures UniqueNames(ApplyAt(cs, ps, index).0)
  {
    if Applies(ps, index) {
      SameNamesUnique(cs, ApplyAt(cs, ps, index).0);
    }
  }

  /** Reverting a result keeps the roster's names. */
  lemma RevertAtUnique(cs: seq<Competitor>, ps: seq<Pairing>, index: nat)
    requires UniqueNames(cs)
    ensures UniqueNames(RevertAt(cs, ps, index).0)
  {
    if Reverts(ps, index) {
      SameNamesUnique(cs, RevertAt(cs, ps, index).0);
    }
  }

  /** Removing one entry keeps names unique. */
  lemma RemovedUnique(cs: seq<Competitor>, k: nat)
    requires UniqueNames(cs) && k < |cs|
    ensures UniqueNames(cs[..k] + cs[k + 1..])
  {
    var r := cs[..k] + cs[k + 1..];
    forall i, j | 0 <= i < j < |r|
      ensures r[i].name != r[j].name
    {
      var i' := if i < k then i else i + 1;
      var j' := if j < k then j else j + 1;
      assert r[i] == cs[i'] && r[j] == cs[j'];
    }
  }

  /** A roster that differs only in places keeps unique names. */
  lemma PlacesKeepUnique(a: seq<Competitor>, b: seq<Competitor>)
    requires UniqueNames(a) && OnlyPlaces(a, b)
    ensures UniqueNames(b)
  {
    forall k | 0 <= k < |b|
      ensures b[k].name == a[k].name
    {
      assert b[k].(place := a[k].place).name == b[k].name;
    }
    SameNamesUnique(a, b);
  }
}
