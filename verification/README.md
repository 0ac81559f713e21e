# Swiss-system pairing

This project models the pairing step of a small Swiss-system tournament manager,
`swissPairings` in `tournament.py`. The function reads the current standings,
which are ranked by wins. It then builds the next round's matches. Each pass of
its loop pops the first two remaining standings rows. From them it appends one
match `(id1, name1, id2, name2)` to the result. The loop runs `len(standings) / 2`
times, using Python 2 integer division.

The model lives in `tournament.dfy`, module `Tournament`:

- `Standing` is one standings row `(id, name, wins, matches)`. `Pairing` is one
  match `(id1, name1, id2, name2)`.
- `Pairs` is the pure specification of the loop. It consumes the list two rows
  at a time.
- `SwissPairings` is the loop itself. It has a mutable `standings` sequence that
  loses its first element twice per pass, and a `pairings` sequence that grows by
  one match per pass. It is proved equal to `Pairs`.
- The lemmas state what the docstring of `swissPairings` promises, and what the
  code does when that promise's assumption fails (an odd number of players).

The standings are an input sequence. The database query that fetches them is
not modelled.

## Model

| member | source | states |
|---|---|---|
| `Tournament.Pairs` | tournament.py:151-165 | the number of matches is the number of standings rows divided by two, rounded down; so an empty list or a single row gives no match |
| `Tournament.SwissPairings` | tournament.py:151-165 | the loop that pops two rows per pass and appends one match returns exactly `Pairs` of the fetched standings; its invariant says that after n passes the remaining list is the input without its first 2n rows and n matches have been built |
| `Tournament.PairAt` | tournament.py:153-162 | match k is `(s[2k].id, s[2k].name, s[2k+1].id, s[2k+1].name)`: ranks 2k and 2k+1, in that order |
| `Tournament.PairIdsPrefix` | tournament.py:152-163 | flattening the ids of all matches gives the ids of the standings in rank order, up to the last even position |
| `Tournament.EvenPairingCoversAll` | tournament.py:130-132 | with an even number of rows the flattened match ids are exactly the input ids in order (same multiset), and distinct input ids give distinct ids across all matches |
| `Tournament.EachPlayerInExactlyOnePair` | tournament.py:130-132 | with an even number of rows and distinct ids, the player at rank i is in match i / 2 (first if i is even, second if odd) and in no other match |
| `Tournament.OddDropsLast` | tournament.py:152-154 | with an odd number of rows the matches are those of the list without its last row; every other row is paired in order, no error arises, and with distinct ids the last-ranked player appears in no match |
| `Tournament.OnlyIdAndNameCopied` | tournament.py:156-162 | only id and name reach a match: two standings lists that agree on ids and names, whatever their wins and match counts, give the same matches |
| `Tournament.PairMembersFound` | tournament.py:153-162 | with distinct ids, the two players of match k, looked up by id, are the standings rows at ranks 2k and 2k+1 |
| `Tournament.PairsFollowRanking` | tournament.py:132-133 | on standings sorted by non-increasing wins with distinct ids, the first player of each match has at least the second's wins, and both players of a match have at least the wins of both players of any later match |

## Left out

- `connect`, `deleteMatches`, `deletePlayers`, `countPlayers`, `registerPlayer`, `playerStandings` and `reportMatch` (tournament.py:9-122) are PostgreSQL statements with no local logic. This includes `reportMatch`'s clock timestamp and its `SELECT MAX(id)` lookup of the new match id.
- The database read at the start of `swissPairings` (tournament.py:143-149) is replaced by the `fetched` parameter of `SwissPairings`.
- The `current_standings` view is not part of this model. It ranks players by wins, orders ties and turns missing win counts into zero. Sortedness by wins is therefore a hypothesis of `PairsFollowRanking`, not something proved.
- Odd player counts and duplicate ids raise no error in the code. The model follows the code: an odd last player is dropped silently (`OddDropsLast`), and duplicate ids pass through unchanged. A design that rejects both inputs with errors is not what the code does, so it is not modelled.
- Byes are not modelled; the code does not assign them.
- Under Python 3, `/` would give a float and `range` would fail. The model uses integer division on the list length, which is what the code relies on under Python 2.
- `pop(0)` is modelled as dropping the head of an immutable sequence. The in-place mutation of the fetched list is local to the function, and no caller can observe it.
