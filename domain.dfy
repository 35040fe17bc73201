/** The stored entities (player, match with its two teams, application) and the team lookups and
    roster edits the services perform on a match. */
module Domain {
  import opened Common

  /** A player row; one without a linked user account is a guest. */
  datatype Player = Player(userId: Option<int>)

  /** A player without a truthy user id is a guest (the `userId` test at match.service.ts:434). */
  predicate IsGuestPlayer(p: Player) {
    !Truthy(p.userId)
  }

  /** A match row with its two teams (teamNumber 1 and 2) and its match-level player list. Teams and
      the player list are many-to-many relations, so each is a set of player ids. */
  datatype Match = Match(
    dateTime: string,
    location: string,
    description: Option<string>,
    duration: int,
    pointsDeviation: int,
    categoryId: int,
    genderId: int,
    creatorPlayerId: PlayerId,
    status: MatchStatus,
    team1: set<PlayerId>,
    team2: set<PlayerId>,
    players: set<PlayerId>)

  datatype Application = Application(
    matchId: MatchId,
    playerId: PlayerId,
    teamNumber: Option<int>,
    message: Option<string>,
    phone: Option<string>,
    status: ApplicationStatus)

  /** The players of the team with number n (the lookup at match.service.ts:229); every match has
      exactly the teams numbered 1 and 2. */
  function Team(m: Match, n: int): (t: Option<set<PlayerId>>)
    ensures t.Some? <==> n == 1 || n == 2
    ensures t.Some? ==> t.value <= m.team1 + m.team2
  {
    if n == 1 then Some(m.team1) else if n == 2 then Some(m.team2) else None
  }

  /** Whether some team of the match holds the player (the roster test at match.service.ts:222 and :376). */
  predicate InAnyTeam(m: Match, p: PlayerId): (b: bool)
    ensures b <==> exists n :: Team(m, n).Some? && p in Team(m, n).value
  {
    assert Team(m, 1) == Some(m.team1) && Team(m, 2) == Some(m.team2);
    p in m.team1 || p in m.team2
  }

  /** Whether team n exists and already holds two or more players. */
  predicate TeamIsFull(m: Match, n: int): (b: bool)
    ensures b <==> (n == 1 && |m.team1| >= 2) || (n == 2 && |m.team2| >= 2)
  {
    Team(m, n).Some? && |Team(m, n).value| >= 2
  }

  /** The number of the first team holding p (the search at match.service.ts:382), with the teams
      listed in creation order. */
  function TeamContaining(m: Match, p: PlayerId): (n: Option<int>)
    ensures n.Some? <==> InAnyTeam(m, p)
    ensures n.Some? ==> Team(m, n.value).Some? && p in Team(m, n.value).value
    ensures n == Some(2) ==> p !in m.team1
  {
    if p in m.team1 then Some(1) else if p in m.team2 then Some(2) else None
  }

  /** `connect` of p to the match's player list and to team n. */
  function Connect(m: Match, n: int, p: PlayerId): (r: Match)
    requires n == 1 || n == 2
    ensures r == m.(team1 := r.team1, team2 := r.team2, players := r.players)
    ensures r.players == m.players + {p}
    ensures Team(r, n).value == Team(m, n).value + {p} && Team(r, 3 - n) == Team(m, 3 - n)
  {
    m.(team1 := if n == 1 then m.team1 + {p} else m.team1,
       team2 := if n == 2 then m.team2 + {p} else m.team2,
       players := m.players + {p})
  }

  /** `disconnect` of p from the match's player list and from team n. */
  function Disconnect(m: Match, n: int, p: PlayerId): (r: Match)
    requires n == 1 || n == 2
    ensures r == m.(team1 := r.team1, team2 := r.team2, players := r.players)
    ensures r.players == m.players - {p}
    ensures Team(r, n).value == Team(m, n).value - {p} && Team(r, 3 - n) == Team(m, 3 - n)
  {
    m.(team1 := if n == 1 then m.team1 - {p} else m.team1,
       team2 := if n == 2 then m.team2 - {p} else m.team2,
       players := m.players - {p})
  }

  /** The roster is consistent when the player list is exactly the union of two disjoint teams. */
  predicate Consistent(m: Match) {
    m.players == m.team1 + m.team2 && m.team1 !! m.team2
  }

  /** In a consistent match the team sizes add up to the number of players in the match. */
  lemma RosterSize(m: Match)
    requires Consistent(m)
    ensures |m.players| == |m.team1| + |m.team2|
  {
    assert m.team1 * m.team2 == {};
  }

  /** Connecting a player who is in no team keeps the roster consistent, grows it by one, touches only
      team n and leaves the status alone. */
  lemma ConnectKeepsConsistent(m: Match, n: int, p: PlayerId)
    requires n == 1 || n == 2
    requires Consistent(m) && !InAnyTeam(m, p)
    ensures var r := Connect(m, n, p);
      && Consistent(r)
      && InAnyTeam(r, p)
      && |r.players| == |m.players| + 1
      && |Team(r, n).value| == |Team(m, n).value| + 1
      && Team(r, 3 - n) == Team(m, 3 - n)
      && r.status == m.status
  {
    var r := Connect(m, n, p);
    assert p !in m.players;
  }

  /** Connecting p to team n places p in the match and in that team, touches no other team and
      leaves the status alone; when p was in no team, team n grows by exactly one (so a team that was
      not full holds at most two players) and a consistent roster stays consistent. */
  lemma ConnectPlacesPlayer(m: Match, n: int, p: PlayerId)
    requires n == 1 || n == 2
    ensures var r := Connect(m, n, p);
      && p in r.players && p in Team(r, n).value
      && r.status == m.status
      && Team(r, 3 - n) == Team(m, 3 - n)
      && (!InAnyTeam(m, p) ==> |Team(r, n).value| == |Team(m, n).value| + 1)
      && (!InAnyTeam(m, p) && !TeamIsFull(m, n) ==> |Team(r, n).value| <= 2)
      && (Consistent(m) && !InAnyTeam(m, p) ==> Consistent(r))
  {
    if !InAnyTeam(m, p) {
      assert p !in Team(m, n).value;
      if Consistent(m) {
        ConnectKeepsConsistent(m, n, p);
      }
    }
  }

  /** Disconnecting a player from the team that holds them keeps the roster consistent and leaves the
      player in no team. */
  lemma DisconnectKeepsConsistent(m: Match, p: PlayerId)
    requires Consistent(m) && InAnyTeam(m, p)
    ensures var r := Disconnect(m, TeamContaining(m, p).value, p);
      && Consistent(r)
      && !InAnyTeam(r, p)
      && r.players == m.players - {p}
      && r.status == m.status
  {
  }

  /** Without consistency a player can sit in both teams; disconnecting from the first team found
      then leaves them in the other team while they leave the player list. */
  lemma DisconnectLeavesSecondCopy()
    ensures var m := Match("", "", None, 90, 0, 1, 1, 1, Pending, {1, 2}, {2}, {1, 2});
      var r := Disconnect(m, TeamContaining(m, 2).value, 2);
      InAnyTeam(r, 2) && 2 !in r.players && !Consistent(r)
  {
    var m := Match("", "", None, 90, 0, 1, 1, 1, Pending, {1, 2}, {2}, {1, 2});
    assert TeamContaining(m, 2) == Some(1);
    assert 2 in Disconnect(m, 1, 2).team2;
  }
}
