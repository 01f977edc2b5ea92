# Badminton scheduler: doubles court assignment

A Dafny model of `generate_matchups`, the matchmaking step of a small
badminton-session scheduler. Given the session's roster of player names, it
shuffles the roster in place, then reads it in strides of four. Every full
group of four becomes one court. Courts are numbered 1, 2, … in order. The
first two players of a group form Team 1 and the last two form Team 2. Each
team is displayed as its two names joined by `" & "`. The `len(players) % 4`
players after the last full group get no court and no record.

Two modules:

- `Permutations` (permutations.dfy) stands in for `random.shuffle`. The caller
  supplies the shuffle as an index permutation `perm`: position `i` receives the
  element found at `perm[i]`. `IsPermutation` says each position `0 .. n-1`
  appears exactly once. `Shuffle` applies it to an array in place.
- `Matchmaking` (matchmaking.dfy) holds the schedule. `Court` records the court
  number and the two teams as pairs of names. `TeamLabel` renders a team, and
  `Table` renders the rows that the app displays. `Matchups` is the
  specification of the chunking and numbering, and `Generate` is the same after
  the shuffle. `FormCourts` is the loop, proved against `Matchups`.
  `GenerateMatchups` is the whole operation: shuffle in place, then form courts.

The docstring of `generate_matchups` (app.py:42) promises "randomized doubles
matchups with minimal repeats". The body (app.py:45-58) does not minimise
repeats: it keeps no history, makes no record for players who sit out, and
silently drops the leftover players (`Leftover`). The model follows the
body. The function also needs no non-empty roster: an empty or short roster
simply yields no courts.

## Model

| member | source | states |
|---|---|---|
| Permutations.Permute | app.py:45 | the shuffled list: as long as the roster, with position `i` holding the roster's element at position `perm[i]` |
| Permutations.Shuffle | app.py:45 | the roster array is reordered in place: afterwards position `i` holds the old element at `perm[i]`, and the multiset of names is unchanged |
| Permutations.PermutePreservesMultiset | app.py:45 | a shuffle by any permutation keeps the same multiset of names: nothing added, dropped or duplicated |
| Permutations.PermutePreservesDistinct | app.py:45 | shuffling a roster without repeated names gives a list without repeated names |
| Matchmaking.FormCourts | app.py:46-57 | the stride-4 loop with its `i + 3 < len(players)` test and `len(courts) + 1` numbering returns exactly `Matchups` of the shuffled roster |
| Matchmaking.GenerateMatchups | app.py:41-58 | shuffles the caller's array in place by `perm` and returns the courts of the shuffled roster, i.e. `Generate(old roster, perm)` |
| Matchmaking.MatchupsStep | app.py:48-57 | one loop pass: with the first `i` players read (`i / 4` courts formed), the next stride adds the court numbered `i/4 + 1` holding positions `i .. i+3` when `i + 3 < n`, and nothing otherwise |
| Matchmaking.CourtsFrom | app.py:46-57 | reading a list in strides of four yields `len / 4` courts (integer division), numbered consecutively from `first` in output order |
| Matchmaking.Matchups | app.py:46-57 | the schedule of a shuffled roster is empty exactly when there are fewer than four players, and court `k` from 0 is numbered `k + 1`, i.e. `len(courts) + 1` at the time it is appended |
| Matchmaking.CourtsFromAt | app.py:48-55 | court `k` from 0 is numbered `first + k` and holds positions `4k, 4k+1` as Team 1 and `4k+2, 4k+3` as Team 2 |
| Matchmaking.CourtsFromAppend | app.py:48-49 | chunking a list cut at a multiple of four is chunking each part, with the numbering of the second part continuing the first |
| Matchmaking.SeatedCourtsFrom | app.py:48-50 | the names placed on courts, in order, are exactly the list with its last `len % 4` names removed |
| Matchmaking.MatchupsShape | app.py:48-55 | the schedule has `len(players) / 4` courts, is empty exactly when there are fewer than four players, and court `k` is numbered `k + 1` and holds shuffled positions `4k .. 4k+3`, first pair as Team 1 and second pair as Team 2 |
| Matchmaking.DisplayedRows | app.py:48-58 | the returned table has `len / 4` rows; row `k` shows court `k + 1`, Team 1 as shuffled positions `4k` and `4k+1` joined by `" & "`, and Team 2 as positions `4k+2` and `4k+3` joined the same way |
| Matchmaking.SeatsAndLeftover | app.py:48-50 | the seated names followed by the leftovers are exactly the shuffled roster, so every player is seated once or left out, never both; there are 4 seats per court and `len % 4 < 4` leftovers |
| Matchmaking.LeftoverPlaysNoRole | app.py:48-49 | removing the trailing `len % 4` players does not change the schedule |
| Matchmaking.NoPlayerTwice | app.py:45-50 | if the roster's names are distinct, no name appears twice across all teams of all courts |
| Matchmaking.EverySeatFromRoster | app.py:45-50 | seated names plus leftovers equal the caller's roster as a multiset, so every seated name comes from the roster |
| Matchmaking.TeamLabel | app.py:54-55 | a team label is the first name, then `" & "`, then the second name, and nothing else |
| Matchmaking.LabelRoundTrip | app.py:54-55 | a team label `a + " & " + b` splits back into `(a, b)` at its first `" & "` whenever `a` contains no `&` |
| Matchmaking.Table | app.py:51-58 | the displayed table has one row per court, in the same order, each row keeping its court number |
| Matchmaking.TableReadsBack | app.py:51-58 | each displayed row keeps its court number, and both of its team labels read back into the row's teams |

## Left out

- The Streamlit page, menu and forms (app.py:64-93) are user interface only.
- The Google Sheets connection and credentials (app.py:9-22), and `get_players` and `update_players` (app.py:28-38), are network I/O through third-party libraries.
- The add-player path (app.py:73-82) writes to the sheet; it holds no scheduling logic.
- The randomness of `random.shuffle` is not modelled. The shuffle is a caller-supplied permutation, so the model covers every outcome the shuffle can produce, but it says nothing about their distribution.
- The pandas DataFrame (app.py:58) is modelled as a sequence of `Court` records, with `Table` for the displayed strings. Column names and the DataFrame's shape for an empty schedule are not modelled.
- Names are modelled as strings. The sheet may hold other cell values, which the f-string would format as text; that formatting is not modelled.
