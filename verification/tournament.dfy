/** Pairing step of a Swiss-system tournament.

    The standings arrive already ranked by wins (the ranking is done by the
    database view that produces them, which is not part of this model).  The
    pairing loop walks that list front to back, taking two entries at a time
    and turning them into one match (id1, name1, id2, name2) for the next round.
 */
module Tournament {

  /** One row of the standings: (id, name, wins, matches). */
  datatype Standing = Standing(id: int, name: string, wins: nat, matches: nat)

  /** One match of the next round: (id1, name1, id2, name2). */
  datatype Pairing = Pairing(id1: int, name1: string, id2: int, name2: string)

  datatype Option<T> = None | Some(value: T)

  /** The match made of two standings rows: only their ids and names are kept. */
  function MakePair(p1: Standing, p2: Standing): Pairing {
    Pairing(p1.id, p1.name, p2.id, p2.name)
  }

  /** Specification of the pairing loop: the list consumed two entries at a
      time; a single entry left at the end is not paired. */
  function Pairs(s: seq<Standing>): (r: seq<Pairing>)
    ensures |r| == |s| / 2
    decreases |s|
  {
    if |s| < 2 then [] else [MakePair(s[0], s[1])] + Pairs(s[2..])
  }

  /** The pairing loop of swissPairings.  `standings` is the list fetched
      from the database; each pass pops its first two entries and appends
      the match built from them, for len(standings) / 2 passes (integer
      division). */
  method SwissPairings(fetched: seq<Standing>) returns (pairings: seq<Pairing>)
    ensures pairings == Pairs(fetched)
  {
    var standings := fetched;
    pairings := [];
    var rounds := |standings| / 2;
    var n := 0;
    while n < rounds
      invariant 0 <= n <= rounds
      invariant standings == fetched[2 * n..]
      invariant |pairings| == n
      invariant pairings + Pairs(standings) == Pairs(fetched)
    {
      var p1 := standings[0];
      standings := standings[1..];
      var p2 := standings[0];
      standings := standings[1..];
      var newPair := Pairing(p1.id, p1.name, p2.id, p2.name);
      pairings := pairings + [newPair];
      n := n + 1;
    }
  }

  /** Pair k is made of entries 2k and 2k+1 of the standings, in that order. */
  lemma {:induction false} PairAt(s: seq<Standing>, k: nat)
    requires k < |s| / 2
    ensures Pairs(s)[k] == Pairing(s[2 * k].id, s[2 * k].name, s[2 * k + 1].id, s[2 * k + 1].name)
  {
    if k > 0 {
      PairAt(s[2..], k - 1);
    }
  }

  /** The ids of the standings, in rank order. */
  function Ids(s: seq<Standing>): seq<int> {
    seq(|s|, i requires 0 <= i < |s| => s[i].id)
  }

  /** The ids of all matches, flattened: id1, id2 of the first match, then of the next, ... */
  function PairIds(p: seq<Pairing>): (r: seq<int>)
    ensures |r| == 2 * |p|
  {
    if p == [] then [] else [p[0].id1, p[0].id2] + PairIds(p[1..])
  }

  /** No two standings rows share an id. */
  predicate DistinctIds(s: seq<Standing>) {
    forall i, j :: 0 <= i < j < |s| ==> s[i].id != s[j].id
  }

  predicate Distinct(xs: seq<int>) {
    forall i, j :: 0 <= i < j < |xs| ==> xs[i] != xs[j]
  }

  /** Flattening the matches gives back the ids of the standings in order,
      up to the last even position: every entry but an odd last one is
      paired, once. */
  lemma {:induction false} PairIdsPrefix(s: seq<Standing>)
    ensures PairIds(Pairs(s)) == Ids(s[..|s| / 2 * 2])
  {
    if |s| >= 2 {
      var m := |s| / 2 * 2;
      PairIdsPrefix(s[2..]);
      assert s[2..][..|s[2..]| / 2 * 2] == s[2..m];
      assert Pairs(s)[1..] == Pairs(s[2..]);
      assert PairIds(Pairs(s)) == [s[0].id, s[1].id] + Ids(s[2..m]);
    }
  }

  /** With an even number of players the matches cover the standings
      exactly: the flattened ids are the input ids in order, so each player
      appears once, and distinct input ids give distinct ids in the matches. */
  lemma EvenPairingCoversAll(s: seq<Standing>)
    requires |s| % 2 == 0
    ensures PairIds(Pairs(s)) == Ids(s)
    ensures multiset(PairIds(Pairs(s))) == multiset(Ids(s))
    ensures DistinctIds(s) ==> Distinct(PairIds(Pairs(s)))
  {
    PairIdsPrefix(s);
    assert s[..|s| / 2 * 2] == s;
  }

  /** With an even number of players of distinct ids, the player at rank i
      plays in match i / 2 and in no other match. */
  lemma EachPlayerInExactlyOnePair(s: seq<Standing>, i: nat)
    requires |s| % 2 == 0 && DistinctIds(s) && i < |s|
    ensures var p := Pairs(s)[i / 2];
            (if i % 2 == 0 then p.id1 else p.id2) == s[i].id
    ensures forall k :: 0 <= k < |Pairs(s)| && k != i / 2 ==>
              Pairs(s)[k].id1 != s[i].id && Pairs(s)[k].id2 != s[i].id
  {
    PairAt(s, i / 2);
    forall k | 0 <= k < |Pairs(s)| && k != i / 2
      ensures Pairs(s)[k].id1 != s[i].id && Pairs(s)[k].id2 != s[i].id
    {
      PairAt(s, k);
    }
  }

  /** With an odd number of players exactly the last-ranked one is left out:
      the matches are those of the list without it, and every other entry is
      still paired. */
  lemma {:induction false} OddDropsLast(s: seq<Standing>)
    requires |s| % 2 == 1
    ensures Pairs(s) == Pairs(s[..|s| - 1])
    ensures PairIds(Pairs(s)) == Ids(s[..|s| - 1])
    ensures DistinctIds(s) ==> s[|s| - 1].id !in PairIds(Pairs(s))
  {
    if |s| > 1 {
      OddDropsLast(s[2..]);
      assert s[..|s| - 1][2..] == s[2..][..|s[2..]| - 1];
    }
    PairIdsPrefix(s);
    assert |s| / 2 * 2 == |s| - 1;
  }

  /** Only ids and names reach the matches: two standings lists that agree
      on ids and names, whatever their wins and matches, give the same pairs. */
  lemma {:induction false} OnlyIdAndNameCopied(s: seq<Standing>, t: seq<Standing>)
    requires |s| == |t|
    requires forall i :: 0 <= i < |s| ==> s[i].id == t[i].id && s[i].name == t[i].name
    ensures Pairs(s) == Pairs(t)
  {
    if |s| >= 2 {
      assert s[0].id == t[0].id && s[0].name == t[0].name;
      assert s[1].id == t[1].id && s[1].name == t[1].name;
      forall i | 0 <= i < |s[2..]|
        ensures s[2..][i].id == t[2..][i].id && s[2..][i].name == t[2..][i].name
      {
        assert s[2..][i] == s[i + 2] && t[2..][i] == t[i + 2];
      }
      OnlyIdAndNameCopied(s[2..], t[2..]);
    }
  }

  /** Ranked by non-increasing wins, as the standings view delivers them. */
  predicate SortedByWins(s: seq<Standing>) {
    forall i, j :: 0 <= i < j < |s| ==> s[i].wins >= s[j].wins
  }

  /** The first standings row with the given id, if any. */
  function Lookup(s: seq<Standing>, id: int): (r: Option<Standing>)
    ensures r.Some? ==> r.value in s && r.value.id == id
    ensures r.None? ==> forall i :: 0 <= i < |s| ==> s[i].id != id
  {
    if s == [] then None
    else if s[0].id == id then Some(s[0])
    else Lookup(s[1..], id)
  }

  lemma {:induction false} LookupDistinct(s: seq<Standing>, i: int)
    requires DistinctIds(s) && 0 <= i < |s|
    ensures Lookup(s, s[i].id) == Some(s[i])
  {
    if i > 0 {
      assert s[0].id != s[i].id;
      assert s[1..][i - 1] == s[i];
      LookupDistinct(s[1..], i - 1);
    }
  }

  /** With distinct ids, the players of match k are found, by their ids, at
      ranks 2k and 2k+1 of the standings. */
  lemma PairMembersFound(s: seq<Standing>, k: nat)
    requires DistinctIds(s) && k < |s| / 2
    ensures Lookup(s, Pairs(s)[k].id1) == Some(s[2 * k])
    ensures Lookup(s, Pairs(s)[k].id2) == Some(s[2 * k + 1])
  {
    PairAt(s, k);
    LookupDistinct(s, 2 * k);
    LookupDistinct(s, 2 * k + 1);
  }

  /** On standings sorted by wins, each match sets a player against the one
      closest in the standings: the first player of match k has at least the
      second's wins, and both have at least the wins of both players of any
      later match k2. */
  lemma PairsFollowRanking(s: seq<Standing>, k: nat, k2: nat)
    requires SortedByWins(s) && DistinctIds(s)
    requires k <= k2 < |s| / 2
    ensures Lookup(s, Pairs(s)[k].id1).Some? && Lookup(s, Pairs(s)[k].id2).Some?
    ensures Lookup(s, Pairs(s)[k2].id1).Some? && Lookup(s, Pairs(s)[k2].id2).Some?
    ensures Lookup(s, Pairs(s)[k].id1).value.wins >= Lookup(s, Pairs(s)[k].id2).value.wins
    ensures k < k2 ==> Lookup(s, Pairs(s)[k].id2).value.wins >= Lookup(s, Pairs(s)[k2].id1).value.wins
  {
    PairMembersFound(s, k);
    PairMembersFound(s, k2);
  }
}
