/**
 Doubles court assignment for one badminton session (`generate_matchups`).
 The roster is shuffled in place, then read in strides of four: each full
 group of four becomes one court, numbered from 1 in order, whose first two
 players form Team 1 and last two form Team 2. The `|roster| % 4` players
 left after the last full group are not placed on any court.
 */
module Matchmaking {
  import opened Permutations

  type Name = string

  /** Two partners, in the order they are listed on the court sheet. */
  type Team = (Name, Name)

  /** One row of the schedule: a 1-based court number and the two teams on it. */
  datatype Court = Court(court: nat, team1: Team, team2: Team)

  /** A row as it is displayed, each team shown as one label. */
  datatype Row = Row(court: nat, team1: string, team2: string)

  datatype Option<T> = None | Some(value: T)

  // ---------------------------------------------------------------------------
  // Team labels
  // ---------------------------------------------------------------------------

  const Separator: string := " & "

  /**
   The display label of a team: the first partner's name, then `" & "`, then
   the second partner's name.
   */
  function TeamLabel(t: Team): (text: string)
    ensures |text| == |t.0| + |Separator| + |t.1|
    ensures text[..|t.0|] == t.0
    ensures text[|t.0|..|t.0| + |Separator|] == Separator
    ensures text[|t.0| + |Separator|..] == t.1
  {
    t.0 + Separator + t.1
  }

  /**
   Reads a label back into a team: the first name is everything before the
   first `" & "`, the second name everything after it.
   */
  function SplitLabel(text: string): Option<Team>
  {
    if |text| < |Separator| then None
    else if text[..|Separator|] == Separator then Some(("", text[|Separator|..]))
    else match SplitLabel(text[1..])
      case None => None
      case Some(t) => Some(([text[0]] + t.0, t.1))
  }

  /** A label is unambiguous as long as the first partner's name has no `&` in it. */
  lemma {:induction false} LabelRoundTrip(t: Team)
    requires '&' !in t.0
    ensures SplitLabel(TeamLabel(t)) == Some(t)
    decreases |t.0|
  {
    var text := TeamLabel(t);
    if t.0 == [] {
      assert text[..|Separator|] == Separator;
    } else {
      assert text[1] != '&';
      assert text[..|Separator|] != Separator;
      assert '&' !in t.0[1..];
      LabelRoundTrip((t.0[1..], t.1));
      assert text[1..] == TeamLabel((t.0[1..], t.1));
      assert [text[0]] + t.0[1..] == t.0;
    }
  }

  /** The displayed schedule: one row per court, each team shown by its label. */
  function Table(courts: seq<Court>): (rows: seq<Row>)
    ensures |rows| == |courts|
    ensures forall k | 0 <= k < |courts| :: rows[k].court == courts[k].court
  {
    seq(|courts|, k requires 0 <= k < |courts| =>
      Row(courts[k].court, TeamLabel(courts[k].team1), TeamLabel(courts[k].team2)))
  }

  /** Every displayed row reads back into the court it was rendered from. */
  lemma TableReadsBack(courts: seq<Court>, k: nat)
    requires k < |courts|
    requires '&' !in courts[k].team1.0 && '&' !in courts[k].team2.0
    ensures |Table(courts)| == |courts|
    ensures Table(courts)[k].court == courts[k].court
    ensures SplitLabel(Table(courts)[k].team1) == Some(courts[k].team1)
    ensures SplitLabel(Table(courts)[k].team2) == Some(courts[k].team2)
  {
    LabelRoundTrip(courts[k].team1);
    LabelRoundTrip(courts[k].team2);
  }

  // ---------------------------------------------------------------------------
  // Chunking the shuffled roster into courts
  // ---------------------------------------------------------------------------

  /**
   The courts formed from `s`, read in strides of four, the first of them
   numbered `first`. A trailing group of fewer than four forms no court.
   */
  function CourtsFrom(s: seq<Name>, first: nat): (courts: seq<Court>)
    ensures |courts| == |s| / 4
    ensures forall k | 0 <= k < |courts| :: courts[k].court == first + k
    decreases |s|
  {
    if |s| < 4 then []
    else [Court(first, (s[0], s[1]), (s[2], s[3]))] + CourtsFrom(s[4..], first + 1)
  }

  /** The schedule for an already shuffled roster: courts numbered from 1. */
  function Matchups(shuffled: seq<Name>): (courts: seq<Court>)
    ensures courts == [] <==> |shuffled| < 4
    ensures forall k | 0 <= k < |courts| :: courts[k].court == k + 1
  {
    CourtsFrom(shuffled, 1)
  }

  /** The schedule for `players` shuffled by `perm`. */
  function Generate(players: seq<Name>, perm: seq<nat>): seq<Court>
    requires IsPermutation(perm, |players|)
  {
    Matchups(Permute(players, perm))
  }

  /** Every name placed on a court, court by court, Team 1 before Team 2. */
  function Seated(courts: seq<Court>): seq<Name>
  {
    if courts == [] then []
    else
      var c := courts[0];
      [c.team1.0, c.team1.1, c.team2.0, c.team2.1] + Seated(courts[1..])
  }

  /** The players after the last full group of four: they sit out. */
  function Leftover(shuffled: seq<Name>): seq<Name>
  {
    shuffled[|shuffled| - |shuffled| % 4..]
  }

  /** Chunking distributes over a split at a multiple of four. */
  lemma {:induction false} CourtsFromAppend(t: seq<Name>, u: seq<Name>, first: nat)
    requires |t| % 4 == 0
    ensures CourtsFrom(t + u, first) == CourtsFrom(t, first) + CourtsFrom(u, first + |t| / 4)
    decreases |t|
  {
    if |t| > 0 {
      assert (t + u)[4..] == t[4..] + u;
      CourtsFromAppend(t[4..], u, first + 1);
    } else {
      assert t + u == u;
    }
  }

  /**
   Court `k` (from 0) carries number `first + k` and the players at positions
   `4k .. 4k+3`: the first two as Team 1, the last two as Team 2.
   */
  lemma {:induction false} CourtsFromAt(s: seq<Name>, first: nat, k: nat)
    requires k < |s| / 4
    ensures |CourtsFrom(s, first)| == |s| / 4
    ensures CourtsFrom(s, first)[k]
         == Court(first + k, (s[4 * k], s[4 * k + 1]), (s[4 * k + 2], s[4 * k + 3]))
    decreases k
  {
    if k > 0 {
      CourtsFromAt(s[4..], first + 1, k - 1);
    }
  }

  /** The seats are exactly the roster with its last `|s| % 4` players cut off. */
  lemma {:induction false} SeatedCourtsFrom(s: seq<Name>, first: nat)
    ensures Seated(CourtsFrom(s, first)) == s[..|s| - |s| % 4]
    decreases |s|
  {
    if |s| >= 4 {
      SeatedCourtsFrom(s[4..], first + 1);
      assert s[..|s| - |s| % 4] == s[..4] + s[4..][..|s[4..]| - |s[4..]| % 4];
    }
  }

  /**
   The whole schedule, stated position by position: `|s| / 4` courts, court
   `k` numbered `k + 1` and holding positions `4k .. 4k+3` of the shuffled
   roster; fewer than four players give no court.
   */
  lemma MatchupsShape(s: seq<Name>)
    ensures |Matchups(s)| == |s| / 4
    ensures Matchups(s) == [] <==> |s| < 4
    ensures forall k | 0 <= k < |Matchups(s)| ::
      Matchups(s)[k] == Court(k + 1, (s[4 * k], s[4 * k + 1]), (s[4 * k + 2], s[4 * k + 3]))
  {
    forall k | 0 <= k < |Matchups(s)|
      ensures Matchups(s)[k] == Court(k + 1, (s[4 * k], s[4 * k + 1]), (s[4 * k + 2], s[4 * k + 3]))
    {
      CourtsFromAt(s, 1, k);
    }
  }

  /**
   The rows the schedule displays, stated on the shuffled roster: row `k`
   shows court `k + 1`, Team 1 as positions `4k` and `4k+1` joined by `" & "`,
   and Team 2 as positions `4k+2` and `4k+3` joined the same way.
   */
  lemma DisplayedRows(s: seq<Name>)
    ensures |Table(Matchups(s))| == |s| / 4
    ensures forall k | 0 <= k < |s| / 4 ::
      Table(Matchups(s))[k]
      == Row(k + 1, s[4 * k] + " & " + s[4 * k + 1], s[4 * k + 2] + " & " + s[4 * k + 3])
  {
    MatchupsShape(s);
  }

  /**
   Every player of the shuffled roster is either seated on exactly one court
   or among the at most three leftovers, never both; the leftovers are the
   last `|s| % 4` players.
   */
  lemma SeatsAndLeftover(s: seq<Name>)
    ensures Seated(Matchups(s)) + Leftover(s) == s
    ensures |Seated(Matchups(s))| == 4 * |Matchups(s)|
    ensures |Leftover(s)| == |s| % 4 < 4
  {
    SeatedCourtsFrom(s, 1);
  }

  /** Dropping the leftovers does not change the schedule. */
  lemma LeftoverPlaysNoRole(s: seq<Name>)
    ensures Matchups(s) == Matchups(s[..|s| - |s| % 4])
  {
    var cut := |s| - |s| % 4;
    CourtsFromAppend(s[..cut], s[cut..], 1);
    assert s == s[..cut] + s[cut..];
  }

  /** With a roster of distinct names, no name appears twice across all teams. */
  lemma NoPlayerTwice(players: seq<Name>, perm: seq<nat>)
    requires IsPermutation(perm, |players|)
    requires Distinct(players)
    ensures Distinct(Seated(Generate(players, perm)))
  {
    var s := Permute(players, perm);
    PermutePreservesDistinct(players, perm);
    SeatedCourtsFrom(s, 1);
  }

  /**
   Seated players and leftovers together are exactly the caller's roster,
   counted with multiplicity; in particular every seated name is on the roster.
   */
  lemma EverySeatFromRoster(players: seq<Name>, perm: seq<nat>)
    requires IsPermutation(perm, |players|)
    ensures multiset(Seated(Generate(players, perm))) + multiset(Leftover(Permute(players, perm)))
         == multiset(players)
    ensures forall x | x in Seated(Generate(players, perm)) :: x in players
  {
    var s := Permute(players, perm);
    SeatsAndLeftover(s);
    PermutePreservesMultiset(players, perm);
    assert multiset(Seated(Matchups(s)) + Leftover(s)) == multiset(players);
    forall x | x in Seated(Generate(players, perm)) ensures x in players {
      assert x in multiset(Seated(Matchups(s)));
    }
  }

  function Min(a: int, b: int): int
  {
    if a < b then a else b
  }

  /**
   One pass of the loop in `FormCourts`: with the first `i` players read
   (`i / 4` courts formed), reading the next stride of four adds one court,
   numbered `i / 4 + 1`, when a full group remains, and nothing otherwise.
   */
  lemma MatchupsStep(s: seq<Name>, i: nat)
    requires i % 4 == 0 && i < |s|
    ensures |Matchups(s[..i])| == i / 4
    ensures Matchups(s[..Min(i + 4, |s|)])
         == Matchups(s[..i])
            + if i + 3 < |s| then [Court(i / 4 + 1, (s[i], s[i + 1]), (s[i + 2], s[i + 3]))] else []
  {
    var j := Min(i + 4, |s|);
    CourtsFromAppend(s[..i], s[i..j], 1);
    assert s[..j] == s[..i] + s[i..j];
  }

  // ---------------------------------------------------------------------------
  // generate_matchups
  // ---------------------------------------------------------------------------

  /**
   The loop of `generate_matchups`: walks the shuffled roster in strides of
   four and appends a court for every full group, numbered by the count of
   courts so far plus one.
   */
  method FormCourts(players: array<Name>) returns (courts: seq<Court>)
    ensures courts == Matchups(players[..])
  {
    var n := players.Length;
    courts := [];
    var i := 0;
    while i < n
      invariant i % 4 == 0 && 0 <= i < n + 4
      invariant courts == Matchups(players[..Min(i, n)])
    {
      MatchupsStep(players[..], i);
      if i + 3 < n {
        var p1, p2, p3, p4 := players[i], players[i + 1], players[i + 2], players[i + 3];
        courts := courts + [Court(|courts| + 1, (p1, p2), (p3, p4))];
      }
      i := i + 4;
    }
    assert players[..Min(i, n)] == players[..];
  }

  /**
   `generate_matchups`: shuffles `players` in place by `perm`, then forms the
   courts from the shuffled roster.
   */
  method GenerateMatchups(players: array<Name>, perm: seq<nat>) returns (courts: seq<Court>)
    requires IsPermutation(perm, players.Length)
    modifies players
    ensures players[..] == Permute(old(players[..]), perm)
    ensures courts == Matchups(players[..])
    ensures courts == Generate(old(players[..]), perm)
  {
    Shuffle(players, perm);
    courts := FormCourts(players);
  }
}
