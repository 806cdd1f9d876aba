/**
 * The pure views of the roster that main.js computes for the round lifecycle:
 * the final standings (`getRankedCompetitors`), the second/third-place tie
 * (`findSecondThirdTie`) and the key under which the current pairings are
 * stored (`getPairingsKey`).
 */
module Standings {
  import opened Wrappers
  import opened Records
  import opened Sorting
  import opened Partitioner

  // ---------------------------------------------------------------------------
  // Standings
  // ---------------------------------------------------------------------------

  /**
   * The standings comparator: fewer losses first, then more wins. It returns
   * `a.losses - b.losses` when the losses differ and `b.wins - a.wins` otherwise,
   * so `a` may stand before `b` exactly when that number is not positive.
   */
  predicate StandingLe(a: Competitor, b: Competitor)
  {
    a.losses < b.losses || (a.losses == b.losses && a.wins >= b.wins)
  }

  lemma StandingLeTotalPreorder()
    ensures TotalPreorder(StandingLe)
  {
  }

  /** `getRankedCompetitors()`: a sorted copy of the roster; the roster itself is untouched. */
  function Ranking(cs: seq<Competitor>): seq<Competitor>
  {
    SortBy(cs, StandingLe)
  }

  /** The standings hold the roster's entries, each once, ordered by the comparator. */
  lemma RankingSorted(cs: seq<Competitor>)
    ensures |Ranking(cs)| == |cs| && multiset(Ranking(cs)) == multiset(cs)
    ensures Sorted(Ranking(cs), StandingLe)
  {
    StandingLeTotalPreorder();
    SortBySorted(cs, StandingLe);
  }

  /** Two records that tie on the standings: equal wins and equal losses. */
  predicate SameRecord(a: Competitor, b: Competitor)
  {
    a.wins == b.wins && a.losses == b.losses
  }

  /** `findSecondThirdTie()`: the competitors ranked second and third, when their records tie. */
  function SecondThirdTie(cs: seq<Competitor>): (r: Option<(Competitor, Competitor)>)
    ensures r.Some? <==> |cs| >= 3 && SameRecord(Ranking(cs)[1], Ranking(cs)[2])
    ensures r.Some? ==> r.value == (Ranking(cs)[1], Ranking(cs)[2])
  {
    var ranked := Ranking(cs);
    if |ranked| < 3 then None
    else
      var second := ranked[1];
      var third := ranked[2];
      if second.wins == third.wins && second.losses == third.losses then Some((second, third)) else None
  }

  /**
   * A tie found is real: both are roster entries with the same record, exactly
   * one entry of the standings is ahead of them, and every later entry stands
   * no better than the third. With unique names they are two distinct competitors.
   */
  lemma TieRanks(cs: seq<Competitor>)
    requires SecondThirdTie(cs).Some?
    ensures var (second, third) := SecondThirdTie(cs).value;
            var ranked := Ranking(cs);
            multiset{ranked[0], second, third} <= multiset(cs) && SameRecord(second, third)
            && StandingLe(ranked[0], second)
            && (forall k :: 3 <= k < |ranked| ==> StandingLe(third, ranked[k]))
            && (UniqueNames(cs) ==> second.name != third.name)
  {
    var ranked := Ranking(cs);
    RankingSorted(cs);
    assert ranked == ranked[..3] + ranked[3..];
    assert ranked[..3] == [ranked[0], ranked[1], ranked[2]];
    assert multiset(ranked) == multiset{ranked[0], ranked[1], ranked[2]} + multiset(ranked[3..]);
    if UniqueNames(cs) {
      UniqueNamesPermutation(cs, ranked);
    }
  }

  // ---------------------------------------------------------------------------
  // The pairings key
  // ---------------------------------------------------------------------------

  /**
   * The default order of `Array.prototype.sort` on strings: lexicographic by
   * character, a proper prefix first.
   */
  predicate CodeUnitLe(a: string, b: string)
    decreases |a|
  {
    a == [] || (b != [] && (a[0] < b[0] || (a[0] == b[0] && CodeUnitLe(a[1..], b[1..]))))
  }

  lemma {:induction false} CodeUnitTotal(a: string, b: string)
    ensures CodeUnitLe(a, b) || CodeUnitLe(b, a)
    decreases |a|
  {
    if a != [] && b != [] && a[0] == b[0] {
      CodeUnitTotal(a[1..], b[1..]);
    }
  }

  lemma {:induction false} CodeUnitTransitive(a: string, b: string, c: string)
    requires CodeUnitLe(a, b) && CodeUnitLe(b, c)
    ensures CodeUnitLe(a, c)
    decreases |a|
  {
    if a != [] && a[0] == b[0] && b[0] == c[0] {
      CodeUnitTransitive(a[1..], b[1..], c[1..]);
    }
  }

  lemma {:induction false} CodeUnitAntisymmetric(a: string, b: string)
    requires CodeUnitLe(a, b) && CodeUnitLe(b, a)
    ensures a == b
    decreases |a|
  {
    if a != [] {
      CodeUnitAntisymmetric(a[1..], b[1..]);
      assert a == [a[0]] + a[1..] && b == [b[0]] + b[1..];
    }
  }

  /** The string order is a total order. */
  lemma CodeUnitOrder()
    ensures TotalPreorder(CodeUnitLe) && Antisymmetric(CodeUnitLe)
  {
    forall a, b
      ensures CodeUnitLe(a, b) || CodeUnitLe(b, a)
    {
      CodeUnitTotal(a, b);
    }
    forall a, b, c | CodeUnitLe(a, b) && CodeUnitLe(b, c)
      ensures CodeUnitLe(a, c)
    {
      CodeUnitTransitive(a, b, c);
    }
    forall a, b | CodeUnitLe(a, b) && CodeUnitLe(b, a)
      ensures a == b
    {
      CodeUnitAntisymmetric(a, b);
    }
  }

  /** The content of the JSON object `{ names, threshold }` that `getPairingsKey()` builds. */
  datatype PairingsKey = PairingsKey(names: seq<string>, threshold: nat)

  /** `getPairingsKey()`: the roster's names in sorted order, with the threshold. */
  function KeyOf(cs: seq<Competitor>, threshold: nat): PairingsKey
  {
    PairingsKey(SortBy(Names(cs), CodeUnitLe), threshold)
  }

  /**
   * Two keys agree exactly when the thresholds agree and the rosters hold the
   * same names, in whatever order: reordering the roster or updating records
   * keeps the stored pairings, adding, removing or renaming a competitor or
   * changing the threshold discards them.
   */
  lemma KeysAgree(a: seq<Competitor>, ta: nat, b: seq<Competitor>, tb: nat)
    ensures KeyOf(a, ta) == KeyOf(b, tb) <==> ta == tb && multiset(Names(a)) == multiset(Names(b))
  {
    CodeUnitOrder();
    SortByCanonical(Names(a), Names(b), CodeUnitLe);
  }

  /** The key's names are the roster's names, in sorted order. */
  lemma KeyNames(cs: seq<Competitor>, threshold: nat)
    ensures multiset(KeyOf(cs, threshold).names) == multiset(Names(cs))
    ensures Sorted(KeyOf(cs, threshold).names, CodeUnitLe)
  {
    CodeUnitOrder();
    SortBySorted(Names(cs), CodeUnitLe);
  }
}
