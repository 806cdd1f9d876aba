/**
 * The roster and pairing records shared by the pairing engine and the round
 * lifecycle, and the bookkeeping over them: the names in a roster, the names
 * appearing in a list of pairings, and name uniqueness.
 */
module Records {
  import opened Wrappers

  /** A roster entry. `place` is set only at the end of a tournament (1) or of a tiebreak (2, 3). */
  datatype Competitor = Competitor(name: string, team: string, wins: nat, losses: nat, place: Option<nat>)

  /** The second seat of a pairing: a competitor's name, or the bye sentinel. */
  datatype Opponent = Bye | Opp(name: string)

  /**
   * A match of the current round. `selected` is the declared winner's name, "" while
   * nothing is selected; `applied` records that the result is already in the roster.
   */
  datatype Pairing = Pairing(comp1: string, comp2: Opponent, selected: string, applied: bool)

  /** A pairing as the engine produces it: nothing selected, nothing applied. */
  function Match(a: string, b: Opponent): Pairing
  {
    Pairing(a, b, "", false)
  }

  function Names(cs: seq<Competitor>): (r: seq<string>)
    ensures |r| == |cs|
  {
    if cs == [] then [] else Names(cs[..|cs| - 1]) + [cs[|cs| - 1].name]
  }

  /** The `k`-th name is the name of the `k`-th entry. */
  lemma {:induction false} NamesIndex(cs: seq<Competitor>)
    ensures forall k :: 0 <= k < |cs| ==> Names(cs)[k] == cs[k].name
  {
    if cs != [] {
      NamesIndex(cs[..|cs| - 1]);
    }
  }

  /** Every name in the names of a roster belongs to one of its entries. */
  lemma NamesMember(cs: seq<Competitor>, n: string) returns (k: nat)
    requires n in multiset(Names(cs))
    ensures k < |cs| && cs[k].name == n
  {
    NamesIndex(cs);
    assert n in Names(cs);
    k :| 0 <= k < |cs| && Names(cs)[k] == n;
  }

  /** The names of a slice are the slice of the names. */
  lemma NamesSlice(cs: seq<Competitor>, i: nat, j: nat)
    requires i <= j <= |cs|
    ensures Names(cs[i..j]) == Names(cs)[i..j]
  {
    var part := cs[i..j];
    NamesIndex(cs);
    NamesIndex(part);
    assert forall k :: 0 <= k < |part| ==> Names(part)[k] == Names(cs)[i + k];
  }

  /** Names are the roster's primary key. */
  predicate UniqueNames(cs: seq<Competitor>)
  {
    forall i, j :: 0 <= i < j < |cs| ==> cs[i].name != cs[j].name
  }

  /** The names seated in one pairing (the bye holds none). */
  function Seated(p: Pairing): multiset<string>
  {
    if p.comp2.Opp? then multiset{p.comp1, p.comp2.name} else multiset{p.comp1}
  }

  /** Every name seated in a list of pairings, with multiplicity. */
  function Participants(ps: seq<Pairing>): multiset<string>
  {
    if ps == [] then multiset{} else Participants(ps[..|ps| - 1]) + Seated(ps[|ps| - 1])
  }

  /** No pairing seats the same name twice. */
  predicate NoSelfPairs(ps: seq<Pairing>)
  {
    forall k :: 0 <= k < |ps| && ps[k].comp2.Opp? ==> ps[k].comp1 != ps[k].comp2.name
  }

  /** Every name occurs at most once. */
  ghost predicate AtMostOnce(m: multiset<string>)
  {
    forall n :: m[n] <= 1
  }

  lemma {:induction false} NamesConcat(a: seq<Competitor>, b: seq<Competitor>)
    ensures Names(a + b) == Names(a) + Names(b)
  {
    NamesIndex(a);
    NamesIndex(b);
    NamesIndex(a + b);
  }

  /** Multiset union cancels: adding the same elements to two multisets keeps them apart or equal. */
  lemma MultisetCancel<T>(x: multiset<T>, y: multiset<T>, a: multiset<T>)
    requires x + a == y + a
    ensures x == y
  {
    forall n ensures x[n] == y[n] {
      assert (x + a)[n] == (y + a)[n];
    }
  }

  lemma NamesBagConcat(a: seq<Competitor>, b: seq<Competitor>)
    ensures multiset(Names(a + b)) == multiset(Names(a)) + multiset(Names(b))
  {
    NamesConcat(a, b);
  }

  /** A roster with one entry taken out. */
  lemma SplitOne(b: seq<Competitor>, k: nat)
    requires k < |b|
    ensures multiset(b) == multiset(b[..k] + b[k + 1..]) + multiset{b[k]}
  {
    assert b == b[..k] + [b[k]] + b[k + 1..];
  }

  /** The names of a non-empty roster: those of all but its last entry, and the last one's. */
  lemma NamesLast(b: seq<Competitor>)
    requires b != []
    ensures multiset(Names(b)) == multiset(Names(b[..|b| - 1])) + multiset{b[|b| - 1].name}
  {
    assert Names(b) == Names(b[..|b| - 1]) + [b[|b| - 1].name];
  }

  /** Taking out an entry before the last one commutes with taking off the last one. */
  lemma SpliceLast<T>(b: seq<T>, k: nat)
    requires k < |b| - 1
    ensures var r := b[..k] + b[k + 1..];
            r != [] && r[..|r| - 1] == b[..|b| - 1][..k] + b[..|b| - 1][k + 1..] && r[|r| - 1] == b[|b| - 1]
  {
  }

  lemma BagSwap<T>(a: multiset<T>, x: multiset<T>, y: multiset<T>)
    ensures (a + x) + y == (a + y) + x
  {
    forall n ensures ((a + x) + y)[n] == ((a + y) + x)[n] {
    }
  }

  /** The names of a roster with one entry taken out. */
  lemma {:induction false} NamesSplit(b: seq<Competitor>, k: nat)
    requires k < |b|
    ensures multiset(Names(b)) == multiset(Names(b[..k] + b[k + 1..])) + multiset{b[k].name}
    decreases |b|
  {
    var init := b[..|b| - 1];
    NamesLast(b);
    if k == |b| - 1 {
      assert b[..k] + b[k + 1..] == init;
    } else {
      var shorter := init[..k] + init[k + 1..];
      NamesSplit(init, k);
      SpliceLast(b, k);
      NamesLast(b[..k] + b[k + 1..]);
      BagSwap(multiset(Names(shorter)), multiset{b[k].name}, multiset{b[|b| - 1].name});
    }
  }

  /** Competitors that are a permutation of each other have the same names, with multiplicity. */
  lemma {:induction false} NamesPermutation(a: seq<Competitor>, b: seq<Competitor>)
    requires multiset(a) == multiset(b)
    ensures multiset(Names(a)) == multiset(Names(b))
    decreases |a|
  {
    if a == [] {
      assert |b| == |multiset(b)| == 0;
    } else {
      var x := a[|a| - 1];
      var init := a[..|a| - 1];
      assert x in multiset(b);
      var k :| 0 <= k < |b| && b[k] == x;
      SplitOne(b, k);
      SplitOne(a, |a| - 1);
      NamesSplit(b, k);
      NamesSplit(a, |a| - 1);
      assert a[..|a| - 1] + a[|a|..] == init;
      var rest := b[..k] + b[k + 1..];
      MultisetCancel(multiset(init), multiset(rest), multiset{x});
      NamesPermutation(init, rest);
    }
  }

  lemma {:induction false} ParticipantsConcat(a: seq<Pairing>, b: seq<Pairing>)
    ensures Participants(a + b) == Participants(a) + Participants(b)
  {
    if b != [] {
      assert (a + b)[..|a + b| - 1] == a + b[..|b| - 1];
      ParticipantsConcat(a, b[..|b| - 1]);
    } else {
      assert a + b == a;
    }
  }

  /** The participants of a list split around one pairing. */
  lemma {:induction false} ParticipantsSplit(ps: seq<Pairing>, k: nat)
    requires k < |ps|
    ensures Participants(ps) == Participants(ps[..k]) + Seated(ps[k]) + Participants(ps[k + 1..])
  {
    var front := ps[..k] + [ps[k]];
    assert ps == front + ps[k + 1..];
    ParticipantsConcat(front, ps[k + 1..]);
    assert front[..|front| - 1] == ps[..k];
    assert Participants(front) == Participants(ps[..k]) + Seated(ps[k]);
  }

  /** Replacing one pairing changes the participants by exactly that pairing's seats. */
  lemma {:induction false} ParticipantsUpdate(ps: seq<Pairing>, k: nat, p: Pairing)
    requires k < |ps|
    ensures Participants(ps[k := p]) + Seated(ps[k]) == Participants(ps) + Seated(p)
  {
    var qs := ps[k := p];
    ParticipantsSplit(ps, k);
    ParticipantsSplit(qs, k);
    assert qs[..k] == ps[..k] && qs[k + 1..] == ps[k + 1..];
  }

  /** A name seated at some pairing of the list is a participant. */
  lemma {:induction false} SeatedInParticipants(ps: seq<Pairing>, k: nat)
    requires k < |ps|
    ensures Seated(ps[k]) <= Participants(ps)
  {
    if k < |ps| - 1 {
      SeatedInParticipants(ps[..|ps| - 1], k);
    }
  }

  /** Unique names give a multiset of names in which each name occurs at most once. */
  lemma {:induction false} UniqueNamesAtMostOnce(cs: seq<Competitor>)
    requires UniqueNames(cs)
    ensures AtMostOnce(multiset(Names(cs)))
  {
    if cs != [] {
      var init := cs[..|cs| - 1];
      var last := cs[|cs| - 1];
      assert UniqueNames(init);
      UniqueNamesAtMostOnce(init);
      assert Names(cs) == Names(init) + [last.name];
      assert last.name !in Names(init) by {
        NamesIndex(init);
        forall i | 0 <= i < |init| ensures Names(init)[i] != last.name {
          assert cs[i].name != cs[|cs| - 1].name;
        }
      }
      assert multiset(Names(cs)) == multiset(Names(init)) + multiset{last.name};
    }
  }

  /** If every name is seated at most once, no pairing seats a name against itself. */
  lemma NoSelfPairsFromParticipants(ps: seq<Pairing>)
    requires AtMostOnce(Participants(ps))
    ensures NoSelfPairs(ps)
  {
    forall k | 0 <= k < |ps| && ps[k].comp2.Opp? ensures ps[k].comp1 != ps[k].comp2.name {
      SeatedInParticipants(ps, k);
      assert Seated(ps[k])[ps[k].comp1] <= Participants(ps)[ps[k].comp1] <= 1;
    }
  }

  /** Filtering by name, as `working.filter(c => c.name !== n)` does. */
  function WithoutName(cs: seq<Competitor>, n: string): (r: seq<Competitor>)
    ensures |r| <= |cs|
  {
    if cs == [] then []
    else (if cs[0].name == n then [] else [cs[0]]) + WithoutName(cs[1..], n)
  }

  /** The filter keeps exactly the entries with another name. */
  lemma {:induction false} WithoutNameMembers(cs: seq<Competitor>, n: string)
    ensures forall c :: c in WithoutName(cs, n) <==> c in cs && c.name != n
  {
    if cs != [] {
      WithoutNameMembers(cs[1..], n);
      assert cs == [cs[0]] + cs[1..];
    }
  }

  /** With unique names, removing the name of one member removes exactly that member. */
  lemma {:induction false} WithoutNameRemovesOne(cs: seq<Competitor>, k: nat)
    requires UniqueNames(cs) && k < |cs|
    ensures WithoutName(cs, cs[k].name) == cs[..k] + cs[k + 1..]
  {
    var n := cs[k].name;
    var tail := cs[1..];
    UniqueNamesTail(cs);
    if k == 0 {
      WithoutNameKeepsAll(tail, n);
      assert WithoutName(cs, n) == [] + WithoutName(tail, n);
      assert cs[..0] + cs[1..] == tail;
    } else {
      assert cs[0].name != n;
      assert tail[k - 1] == cs[k];
      WithoutNameRemovesOne(tail, k - 1);
      assert WithoutName(cs, n) == [cs[0]] + WithoutName(tail, n);
      assert cs[..k] == [cs[0]] + tail[..k - 1];
      assert cs[k + 1..] == tail[k..];
    }
  }

  /** The entries after the first of a roster with unique names have unique names other than the first's. */
  lemma UniqueNamesTail(cs: seq<Competitor>)
    requires UniqueNames(cs) && cs != []
    ensures UniqueNames(cs[1..])
    ensures forall c :: c in cs[1..] ==> c.name != cs[0].name
  {
    var tail := cs[1..];
    forall i, j | 0 <= i < j < |tail| ensures tail[i].name != tail[j].name {
      assert tail[i] == cs[i + 1] && tail[j] == cs[j + 1];
    }
    forall c | c in tail ensures c.name != cs[0].name {
      var i :| 0 <= i < |tail| && tail[i] == c;
      assert cs[i + 1] == c;
    }
  }

  lemma {:induction false} WithoutNameKeepsAll(cs: seq<Competitor>, n: string)
    requires forall c :: c in cs ==> c.name != n
    ensures WithoutName(cs, n) == cs
  {
    if cs != [] {
      WithoutNameKeepsAll(cs[1..], n);
      assert cs == [cs[0]] + cs[1..];
    }
  }

  /** The first roster entry with the given name, as `competitors.find(c => c.name === n)`. */
  function Find(cs: seq<Competitor>, n: string): (r: Option<nat>)
    ensures r.Some? ==> r.value < |cs| && cs[r.value].name == n
    ensures r.Some? ==> forall i :: 0 <= i < r.value ==> cs[i].name != n
    ensures r.None? ==> forall i :: 0 <= i < |cs| ==> cs[i].name != n
  {
    if cs == [] then None
    else if cs[0].name == n then Some(0)
    else match Find(cs[1..], n)
      case None => None
      case Some(i) => Some(i + 1)
  }
}
