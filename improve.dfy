/**
 * The local improvement of `greedyPairGroup` in logic.js: `tryImprovement`
 * looks, in scan order, for the first two non-bye pairings whose partners can
 * be exchanged so that their summed conflict score drops, and performs that
 * exchange in place; the improvement loop repeats it under a fixed budget.
 */
module Improvement {
  import opened Wrappers
  import opened Records
  import opened Matcher

  /**
   * An exchange between pairings `i < j`. With `straight`, `(a1, a2), (b1, b2)`
   * become `(a1, b1), (a2, b2)`; otherwise they become `(a1, b2), (b1, a2)`.
   */
  datatype Move = Move(i: nat, j: nat, straight: bool)

  /** Both pairings of the move exist, `i` comes first and neither is a bye. */
  predicate Legal(ps: seq<Pairing>, m: Move)
  {
    m.i < m.j < |ps| && ps[m.i].comp2.Opp? && ps[m.j].comp2.Opp?
  }

  /**
   * The first pairing after the move: the straight exchange sets `ps[i].comp2 = b1`,
   * the crossed one `ps[i].comp2 = b2`.
   */
  function NewFirst(p: Pairing, q: Pairing, straight: bool): Pairing
  {
    if straight then p.(comp2 := Opp(q.comp1)) else p.(comp2 := q.comp2)
  }

  /** The second pairing after the move: `ps[j].comp1 = a2` (straight) or `ps[j].comp2 = a2` (crossed). */
  function NewSecond(p: Pairing, q: Pairing, straight: bool): Pairing
    requires p.comp2.Opp?
  {
    if straight then q.(comp1 := p.comp2.name) else q.(comp2 := p.comp2)
  }

  /** The pairings after the move; nothing but the two pairings of the move changes. */
  function Exchanged(ps: seq<Pairing>, m: Move): seq<Pairing>
    requires Legal(ps, m)
  {
    ps[m.i := NewFirst(ps[m.i], ps[m.j], m.straight)][m.j := NewSecond(ps[m.i], ps[m.j], m.straight)]
  }

  /** The move is legal and lowers the summed score of its two pairings (`after < before`). */
  predicate Improving(ps: seq<Pairing>, m: Move, tm: map<string, string>)
  {
    Legal(ps, m) &&
    var p, q := ps[m.i], ps[m.j];
    ConflictScore(tm, NewFirst(p, q, m.straight)) + ConflictScore(tm, NewSecond(p, q, m.straight))
    < ConflictScore(tm, p) + ConflictScore(tm, q)
  }

  /**
   * Whether a move improves, computed as the source does on the fresh records
   * `{comp1: a1, comp2: b1}, {comp1: a2, comp2: b2}` (straight) and
   * `{comp1: a1, comp2: b2}, {comp1: b1, comp2: a2}` (crossed).
   */
  lemma ImprovingOnFreshRecords(ps: seq<Pairing>, i: nat, j: nat, tm: map<string, string>)
    requires Legal(ps, Move(i, j, true))
    ensures Improving(ps, Move(i, j, true), tm) <==>
              ConflictScore(tm, Match(ps[i].comp1, Opp(ps[j].comp1))) + ConflictScore(tm, Match(ps[i].comp2.name, ps[j].comp2))
              < ConflictScore(tm, ps[i]) + ConflictScore(tm, ps[j])
    ensures Improving(ps, Move(i, j, false), tm) <==>
              ConflictScore(tm, Match(ps[i].comp1, ps[j].comp2)) + ConflictScore(tm, Match(ps[j].comp1, ps[i].comp2))
              < ConflictScore(tm, ps[i]) + ConflictScore(tm, ps[j])
  {
    var p, q := ps[i], ps[j];
    assert Exchanged(ps, Move(i, j, true))[i] == p.(comp2 := Opp(q.comp1));
    assert Exchanged(ps, Move(i, j, true))[j] == q.(comp1 := p.comp2.name);
    assert Exchanged(ps, Move(i, j, false))[i] == p.(comp2 := q.comp2);
    assert Exchanged(ps, Move(i, j, false))[j] == q.(comp2 := p.comp2);
  }

  /** The move is examined no earlier than position `(i, j)` of the nested scan. */
  predicate NotBefore(m: Move, i: nat, j: nat)
  {
    m.i > i || (m.i == i && m.j >= j)
  }

  /** `m` is examined before `n`: lower `i`, then lower `j`, the straight exchange first. */
  predicate ScannedBefore(m: Move, n: Move)
  {
    m.i < n.i || (m.i == n.i && (m.j < n.j || (m.j == n.j && m.straight && !n.straight)))
  }

  /**
   * The nested scan of `tryImprovement` from outer index `i` and inner index
   * `j`: the first improving move, or None when the scan runs off the end.
   */
  function ScanFrom(ps: seq<Pairing>, tm: map<string, string>, i: nat, j: nat): (r: Option<Move>)
    requires i < j
    ensures r.Some? ==> Legal(ps, r.value)
    decreases |ps| - i, |ps| - j
  {
    if i >= |ps| then None
    else if ps[i].comp2.Bye? || j >= |ps| then ScanFrom(ps, tm, i + 1, i + 2)
    else if ps[j].comp2.Bye? then ScanFrom(ps, tm, i, j + 1)
    else if Improving(ps, Move(i, j, true), tm) then Some(Move(i, j, true))
    else if Improving(ps, Move(i, j, false), tm) then Some(Move(i, j, false))
    else ScanFrom(ps, tm, i, j + 1)
  }

  /** What the scan from `(i, j)` finds is an improving move. */
  lemma {:induction false} ScanFromImproving(ps: seq<Pairing>, tm: map<string, string>, i: nat, j: nat)
    requires i < j
    ensures var r := ScanFrom(ps, tm, i, j);
            r.Some? ==> Improving(ps, r.value, tm)
    decreases |ps| - i, |ps| - j
  {
    if i >= |ps| {
    } else if ps[i].comp2.Bye? || j >= |ps| {
      assert ScanFrom(ps, tm, i, j) == ScanFrom(ps, tm, i + 1, i + 2);
      ScanFromImproving(ps, tm, i + 1, i + 2);
    } else if ps[j].comp2.Bye? {
      assert ScanFrom(ps, tm, i, j) == ScanFrom(ps, tm, i, j + 1);
      ScanFromImproving(ps, tm, i, j + 1);
    } else if Improving(ps, Move(i, j, true), tm) {
      assert ScanFrom(ps, tm, i, j) == Some(Move(i, j, true));
    } else if Improving(ps, Move(i, j, false), tm) {
      assert ScanFrom(ps, tm, i, j) == Some(Move(i, j, false));
    } else {
      assert ScanFrom(ps, tm, i, j) == ScanFrom(ps, tm, i, j + 1);
      ScanFromImproving(ps, tm, i, j + 1);
    }
  }

  /** What the scan from `(i, j)` finds lies no earlier than position `(i, j)`. */
  lemma {:induction false} ScanFromNotBefore(ps: seq<Pairing>, tm: map<string, string>, i: nat, j: nat)
    requires i < j
    ensures var r := ScanFrom(ps, tm, i, j);
            r.Some? ==> NotBefore(r.value, i, j)
    decreases |ps| - i, |ps| - j
  {
    if i >= |ps| {
    } else if ps[i].comp2.Bye? || j >= |ps| {
      assert ScanFrom(ps, tm, i, j) == ScanFrom(ps, tm, i + 1, i + 2);
      ScanFromNotBefore(ps, tm, i + 1, i + 2);
    } else if ps[j].comp2.Bye? {
      assert ScanFrom(ps, tm, i, j) == ScanFrom(ps, tm, i, j + 1);
      ScanFromNotBefore(ps, tm, i, j + 1);
    } else if Improving(ps, Move(i, j, true), tm) {
      assert ScanFrom(ps, tm, i, j) == Some(Move(i, j, true));
    } else if Improving(ps, Move(i, j, false), tm) {
      assert ScanFrom(ps, tm, i, j) == Some(Move(i, j, false));
    } else {
      assert ScanFrom(ps, tm, i, j) == ScanFrom(ps, tm, i, j + 1);
      ScanFromNotBefore(ps, tm, i, j + 1);
    }
  }

  /** When row `i` is over, every improving move not before `(i, j)` lies in a later row. */
  lemma RowDone(ps: seq<Pairing>, tm: map<string, string>, i: nat, j: nat)
    requires i < j && i < |ps| && (ps[i].comp2.Bye? || j >= |ps|)
    ensures forall n :: Improving(ps, n, tm) && NotBefore(n, i, j) ==> NotBefore(n, i + 1, i + 2)
  {
  }

  /** When position `(i, j)` holds no improving move, every one not before it lies after it. */
  lemma PositionDone(ps: seq<Pairing>, tm: map<string, string>, i: nat, j: nat)
    requires i < j < |ps|
    requires ps[j].comp2.Bye? || (!Improving(ps, Move(i, j, true), tm) && !Improving(ps, Move(i, j, false), tm))
    ensures forall n :: Improving(ps, n, tm) && NotBefore(n, i, j) ==> NotBefore(n, i, j + 1)
  {
  }

  /** No improving move at or after `(i, j)` is examined before the one the scan finds. */
  lemma {:induction false} ScanFromFirst(ps: seq<Pairing>, tm: map<string, string>, i: nat, j: nat)
    requires i < j
    ensures var r := ScanFrom(ps, tm, i, j);
            r.Some? ==> forall n :: Improving(ps, n, tm) && NotBefore(n, i, j) ==> !ScannedBefore(n, r.value)
    decreases |ps| - i, |ps| - j
  {
    if i >= |ps| {
    } else if ps[i].comp2.Bye? || j >= |ps| {
      assert ScanFrom(ps, tm, i, j) == ScanFrom(ps, tm, i + 1, i + 2);
      ScanFromFirst(ps, tm, i + 1, i + 2);
      RowDone(ps, tm, i, j);
    } else if ps[j].comp2.Bye? || (!Improving(ps, Move(i, j, true), tm) && !Improving(ps, Move(i, j, false), tm)) {
      assert ScanFrom(ps, tm, i, j) == ScanFrom(ps, tm, i, j + 1);
      ScanFromFirst(ps, tm, i, j + 1);
      PositionDone(ps, tm, i, j);
    }
  }

  /**
   * A crossed exchange never improves where the straight one does not: when the
   * two pairings hold a conflict, each of `a1, a2` or each of `b1, b2` share a
   * team, and then both exchanges give the same score.
   */
  lemma StraightFirst(ps: seq<Pairing>, m: Move, tm: map<string, string>)
    ensures Improving(ps, m, tm) ==> Improving(ps, m.(straight := true), tm)
  {
  }

  /** Consequently the scan only ever finds straight exchanges: the crossed branch of `tryImprovement` is never taken. */
  lemma {:induction false} ScanFromStraight(ps: seq<Pairing>, tm: map<string, string>, i: nat, j: nat)
    requires i < j
    ensures ScanFrom(ps, tm, i, j).Some? ==> ScanFrom(ps, tm, i, j).value.straight
    decreases |ps| - i, |ps| - j
  {
    if i >= |ps| {
    } else if ps[i].comp2.Bye? || j >= |ps| {
      assert ScanFrom(ps, tm, i, j) == ScanFrom(ps, tm, i + 1, i + 2);
      ScanFromStraight(ps, tm, i + 1, i + 2);
    } else {
      StraightFirst(ps, Move(i, j, false), tm);
      if ps[j].comp2.Bye? || (!Improving(ps, Move(i, j, true), tm) && !Improving(ps, Move(i, j, false), tm)) {
        assert ScanFrom(ps, tm, i, j) == ScanFrom(ps, tm, i, j + 1);
        ScanFromStraight(ps, tm, i, j + 1);
      }
    }
  }

  /** The scan from `(i, j)` finds nothing only when no improving move lies at or after `(i, j)`. */
  lemma {:induction false} ScanFromNone(ps: seq<Pairing>, tm: map<string, string>, i: nat, j: nat)
    requires i < j
    ensures ScanFrom(ps, tm, i, j).None? ==> forall n :: Improving(ps, n, tm) ==> !NotBefore(n, i, j)
    decreases |ps| - i, |ps| - j
  {
    if i >= |ps| {
    } else if ps[i].comp2.Bye? || j >= |ps| {
      assert ScanFrom(ps, tm, i, j) == ScanFrom(ps, tm, i + 1, i + 2);
      ScanFromNone(ps, tm, i + 1, i + 2);
      RowDone(ps, tm, i, j);
    } else if ps[j].comp2.Bye? || (!Improving(ps, Move(i, j, true), tm) && !Improving(ps, Move(i, j, false), tm)) {
      assert ScanFrom(ps, tm, i, j) == ScanFrom(ps, tm, i, j + 1);
      ScanFromNone(ps, tm, i, j + 1);
      PositionDone(ps, tm, i, j);
    }
  }

  /** The move `tryImprovement` makes on `ps`, if any. */
  function FirstMove(ps: seq<Pairing>, tm: map<string, string>): (r: Option<Move>)
    ensures r.Some? ==> Legal(ps, r.value)
  {
    ScanFrom(ps, tm, 0, 1)
  }

  /**
   * `tryImprovement(ps)`: performs the first improving exchange in place and
   * answers true, or answers false and leaves `ps` as it is.
   */
  method TryImprovement(ps: array<Pairing>, tm: map<string, string>) returns (improved: bool)
    modifies ps
    ensures improved == FirstMove(old(ps[..]), tm).Some?
    ensures improved ==> ps[..] == Exchanged(old(ps[..]), FirstMove(old(ps[..]), tm).value)
    ensures !improved ==> ps[..] == old(ps[..])
  {
    var i := 0;
    while i < ps.Length
      invariant 0 <= i <= ps.Length
      invariant ps[..] == old(ps[..])
      invariant ScanFrom(ps[..], tm, i, i + 1) == FirstMove(ps[..], tm)
    {
      if ps[i].comp2.Bye? {
        i := i + 1;
        continue;
      }
      improved := TryPartners(ps, tm, i);
      if improved {
        return;
      }
      i := i + 1;
    }
    return false;
  }

  /** The inner loop of `tryImprovement`: tries every later non-bye partner pairing of `ps[i]`. */
  method TryPartners(ps: array<Pairing>, tm: map<string, string>, i: nat) returns (improved: bool)
    requires i < ps.Length && ps[i].comp2.Opp?
    modifies ps
    ensures improved ==> ScanFrom(old(ps[..]), tm, i, i + 1).Some?
    ensures improved ==> ps[..] == Exchanged(old(ps[..]), ScanFrom(old(ps[..]), tm, i, i + 1).value)
    ensures !improved ==> ps[..] == old(ps[..]) && ScanFrom(ps[..], tm, i, i + 1) == ScanFrom(ps[..], tm, i + 1, i + 2)
  {
    ghost var ps0 := ps[..];
    var j := i + 1;
    while j < ps.Length
      invariant i + 1 <= j <= ps.Length
      invariant ps[..] == ps0
      invariant ScanFrom(ps0, tm, i, j) == ScanFrom(ps0, tm, i, i + 1)
    {
      if ps[j].comp2.Bye? {
        j := j + 1;
        continue;
      }
      var a1, a2 := ps[i].comp1, ps[i].comp2;
      var b1, b2 := ps[j].comp1, ps[j].comp2;
      var before := ConflictScore(tm, ps[i]) + ConflictScore(tm, ps[j]);
      var after1 := ConflictScore(tm, Match(a1, Opp(b1))) + ConflictScore(tm, Match(a2.name, b2));
      var after2 := ConflictScore(tm, Match(a1, b2)) + ConflictScore(tm, Match(b1, a2));
      ImprovingOnFreshRecords(ps0, i, j, tm);
      if after1 < before || after2 < before {
        Exchange(ps, Move(i, j, after1 < before));
        return true;
      }
      j := j + 1;
    }
    assert ScanFrom(ps0, tm, i, j) == ScanFrom(ps0, tm, i + 1, i + 2);
    return false;
  }

  /**
   * Performs a move in place: `ps[i].comp2 = b1; ps[j].comp1 = a2` for the
   * straight exchange, `ps[i].comp2 = b2; ps[j].comp2 = a2` for the crossed one.
   */
  method Exchange(ps: array<Pairing>, m: Move)
    requires Legal(ps[..], m)
    modifies ps
    ensures ps[..] == Exchanged(old(ps[..]), m)
  {
    var p, q := ps[m.i], ps[m.j];
    if m.straight {
      ps[m.i] := p.(comp2 := Opp(q.comp1));
      ps[m.j] := q.(comp1 := p.comp2.name);
    } else {
      ps[m.i] := p.(comp2 := q.comp2);
      ps[m.j] := q.(comp2 := p.comp2);
    }
  }

  /** The improvement budget `min(10, max(0, 2 * pairs.length))`. */
  function Budget(n: nat): (b: nat)
    ensures b <= 10 && b <= 2 * n
    ensures n >= 5 ==> b == 10
  {
    if 2 * n < 10 then 2 * n else 10
  }

  /** The pairings after at most `budget` improving exchanges, stopping early at a local optimum. */
  function Improved(ps: seq<Pairing>, tm: map<string, string>, budget: nat): seq<Pairing>
    decreases budget
  {
    if budget == 0 then ps
    else match FirstMove(ps, tm)
      case None => ps
      case Some(m) => Improved(Exchanged(ps, m), tm, budget - 1)
  }

  /** One round of the improvement loop with budget left and an improving move. */
  lemma ImprovedStep(ps: seq<Pairing>, tm: map<string, string>, budget: nat, m: Move)
    requires budget > 0 && FirstMove(ps, tm) == Some(m)
    ensures Improved(ps, tm, budget) == Improved(Exchanged(ps, m), tm, budget - 1)
  {
  }

  /** The improvement loop: `while (improvIterations-- > 0) if (!tryImprovement(pairs)) break;`. */
  method Improve(ps: array<Pairing>, tm: map<string, string>)
    modifies ps
    ensures ps[..] == Improved(old(ps[..]), tm, Budget(ps.Length))
  {
    ghost var goal := Improved(ps[..], tm, Budget(ps.Length));
    var iterations := Budget(ps.Length);
    while iterations > 0
      invariant Improved(ps[..], tm, iterations) == goal
      decreases iterations
    {
      iterations := iterations - 1;
      var improved := TryImprovement(ps, tm);
      if !improved {
        break;
      }
    }
  }

  // ---------------------------------------------------------------------------
  // What one exchange preserves and what it gains
  // ---------------------------------------------------------------------------

  /** An improving exchange lowers the summed conflict score of the whole list. */
  lemma ExchangeLowersScore(ps: seq<Pairing>, m: Move, tm: map<string, string>)
    requires Improving(ps, m, tm)
    ensures TotalScore(Exchanged(ps, m), tm) < TotalScore(ps, tm)
  {
    var p, q := ps[m.i], ps[m.j];
    var mid := ps[m.i := NewFirst(p, q, m.straight)];
    TotalScoreUpdate(ps, m.i, NewFirst(p, q, m.straight), tm);
    TotalScoreUpdate(mid, m.j, NewSecond(p, q, m.straight), tm);
  }

  /** The two pairings of an exchange seat the same names before and after. */
  lemma SeatedExchange(p: Pairing, q: Pairing, straight: bool)
    requires p.comp2.Opp? && q.comp2.Opp?
    ensures Seated(NewFirst(p, q, straight)) + Seated(NewSecond(p, q, straight)) == Seated(p) + Seated(q)
  {
  }

  /** An exchange seats the same names, with the same multiplicity. */
  lemma ExchangeKeepsParticipants(ps: seq<Pairing>, m: Move)
    requires Legal(ps, m)
    ensures Participants(Exchanged(ps, m)) == Participants(ps)
  {
    var p, q := ps[m.i], ps[m.j];
    var x, y := NewFirst(p, q, m.straight), NewSecond(p, q, m.straight);
    var mid := ps[m.i := x];
    assert mid[m.j] == q;
    ParticipantsUpdate(ps, m.i, x);
    ParticipantsUpdate(mid, m.j, y);
    SeatedExchange(p, q, m.straight);
    Rebalance(Participants(mid[m.j := y]), Participants(mid), Participants(ps), Seated(x), Seated(y), Seated(p), Seated(q));
  }

  /** Two replacements whose seats balance out leave the multiset as it was. */
  lemma Rebalance(r: multiset<string>, mid: multiset<string>, ps: multiset<string>,
                  x: multiset<string>, y: multiset<string>, p: multiset<string>, q: multiset<string>)
    requires r + q == mid + y && mid + p == ps + x && x + y == p + q
    ensures r == ps
  {
    forall n ensures r[n] == ps[n] {
      assert (r + q)[n] == (mid + y)[n];
      assert (mid + p)[n] == (ps + x)[n];
      assert (x + y)[n] == (p + q)[n];
    }
  }

  /** An exchange leaves every bye pairing where it was, and creates no bye. */
  lemma ExchangeKeepsByes(ps: seq<Pairing>, m: Move)
    requires Legal(ps, m)
    ensures forall k :: 0 <= k < |ps| ==> (Exchanged(ps, m)[k].comp2.Bye? <==> ps[k].comp2.Bye?)
    ensures forall k :: 0 <= k < |ps| && ps[k].comp2.Bye? ==> Exchanged(ps, m)[k] == ps[k]
  {
  }

  /** An exchange keeps every pairing's selection and applied flag. */
  lemma ExchangeKeepsFlags(ps: seq<Pairing>, m: Move)
    requires Legal(ps, m)
    ensures forall k :: 0 <= k < |ps| ==>
              Exchanged(ps, m)[k].selected == ps[k].selected && Exchanged(ps, m)[k].applied == ps[k].applied
  {
  }

  /** `tryImprovement` answers false exactly at a local optimum: no exchange of two pairings helps. */
  lemma NoMoveIsLocalOptimum(ps: seq<Pairing>, tm: map<string, string>)
    ensures FirstMove(ps, tm).None? <==> forall m :: !Improving(ps, m, tm)
  {
    ScanFromImproving(ps, tm, 0, 1);
    ScanFromNone(ps, tm, 0, 1);
    if FirstMove(ps, tm).Some? {
      assert Improving(ps, FirstMove(ps, tm).value, tm);
    }
  }

  // ---------------------------------------------------------------------------
  // The bounded improvement loop
  // ---------------------------------------------------------------------------

  /**
   * Each step of the loop lowers the score by at least one: the loop either
   * stops at a local optimum or spends its whole budget, and in the second case
   * the score dropped by at least the budget.
   */
  lemma {:induction false} ImprovedScore(ps: seq<Pairing>, tm: map<string, string>, budget: nat)
    ensures TotalScore(Improved(ps, tm, budget), tm) <= TotalScore(ps, tm)
    ensures FirstMove(Improved(ps, tm, budget), tm).None?
         || TotalScore(Improved(ps, tm, budget), tm) + budget <= TotalScore(ps, tm)
    decreases budget
  {
    match FirstMove(ps, tm)
    case None =>
    case Some(m) =>
      if budget > 0 {
        ScanFromImproving(ps, tm, 0, 1);
        ExchangeLowersScore(ps, m, tm);
        ImprovedScore(Exchanged(ps, m), tm, budget - 1);
      }
  }

  /** The loop keeps the seated names and their multiplicity. */
  lemma {:induction false} ImprovedKeepsParticipants(ps: seq<Pairing>, tm: map<string, string>, budget: nat)
    ensures Participants(Improved(ps, tm, budget)) == Participants(ps)
    decreases budget
  {
    match FirstMove(ps, tm)
    case None =>
      assert Improved(ps, tm, budget) == ps;
    case Some(m) =>
      if budget > 0 {
        var e := Exchanged(ps, m);
        ImprovedKeepsParticipants(e, tm, budget - 1);
        assert Participants(Improved(e, tm, budget - 1)) == Participants(e);
        ExchangeKeepsParticipants(ps, m);
        assert Participants(e) == Participants(ps);
        ImprovedStep(ps, tm, budget, m);
      } else {
        assert Improved(ps, tm, budget) == ps;
      }
  }

  /** The loop keeps the number of pairings and the position of every bye. */
  lemma {:induction false} ImprovedKeepsByes(ps: seq<Pairing>, tm: map<string, string>, budget: nat)
    ensures |Improved(ps, tm, budget)| == |ps|
    ensures forall k :: 0 <= k < |ps| ==> (Improved(ps, tm, budget)[k].comp2.Bye? <==> ps[k].comp2.Bye?)
    decreases budget
  {
    match FirstMove(ps, tm)
    case None =>
    case Some(m) =>
      if budget > 0 {
        ExchangeKeepsByes(ps, m);
        ImprovedKeepsByes(Exchanged(ps, m), tm, budget - 1);
      }
  }

  /** The loop keeps pairings fresh. */
  lemma {:induction false} ImprovedKeepsFresh(ps: seq<Pairing>, tm: map<string, string>, budget: nat)
    requires AllFresh(ps)
    ensures AllFresh(Improved(ps, tm, budget))
    decreases budget
  {
    match FirstMove(ps, tm)
    case None =>
    case Some(m) =>
      if budget > 0 {
        ExchangeKeepsFlags(ps, m);
        ImprovedKeepsFresh(Exchanged(ps, m), tm, budget - 1);
      }
  }
}
