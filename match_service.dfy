/** The match service: creating, cancelling, re-stating and editing matches, and adding players to
    and removing them from a match's teams. Every operation first checks its guards in a fixed
    order, then writes the store. */
module MatchService {
  import opened Common
  import opened Roster
  import opened Domain
  import opened Store

  /** The body of a create request (MatchDto). */
  datatype MatchDto = MatchDto(
    date: string,
    time: string,
    location: string,
    description: Option<string>,
    categoryId: int,
    pointsDeviation: int,
    genderId: int,
    teams: Option<TeamsDto>,
    duration: int)

  /** The body of a partial update: a field is changed only when it is supplied. */
  datatype UpdateMatchDto = UpdateMatchDto(
    location: Option<string>,
    description: Option<string>,
    duration: Option<int>,
    pointsDeviation: Option<int>,
    date: Option<string>,
    time: Option<string>,
    genderId: Option<int>,
    categoryId: Option<int>,
    teams: Option<TeamsDto>)

  datatype AddPlayerToMatchRequest = AddPlayerToMatchRequest(matchId: MatchId, teamNumber: int, playerId: PlayerId)

  datatype DeletePlayerFromMatchRequest = DeletePlayerFromMatchRequest(matchId: MatchId, playerId: PlayerId)

  /** The timestamp text both createMatch and updateMatch build: `${date}T${time}:00.000Z`. */
  function DateTime(date: string, time: string): string {
    date + "T" + time + ":00.000Z"
  }

  lemma DateTimeLayout(date: string, time: string)
    ensures |DateTime(date, time)| == |date| + |time| + 9
    ensures DateTime(date, time)[|date|] == 'T'
    ensures forall i :: 0 <= i < |date| ==> DateTime(date, time)[i] == date[i]
  {
  }

  /** As long as the date part holds no 'T', the timestamp text determines both of its parts. */
  lemma DateTimeInjective(d1: string, t1: string, d2: string, t2: string)
    requires 'T' !in d1 && 'T' !in d2
    requires DateTime(d1, t1) == DateTime(d2, t2)
    ensures d1 == d2 && t1 == t2
  {
    var s := DateTime(d1, t1);
    DateTimeLayout(d1, t1);
    DateTimeLayout(d2, t2);
    if |d1| < |d2| {
      assert false;
    } else if |d2| < |d1| {
      assert false;
    }
    assert d1 == s[..|d1|] == d2;
    assert t1 == s[|d1| + 1..|s| - 8] == t2;
  }

  /** `teams` when the request has them, two absent rosters otherwise. */
  function RequestTeams(teams: Option<TeamsDto>): TeamsDto {
    if teams.Some? then teams.value else TeamsDto(None, None)
  }

  /** The number of roster entries of both teams together, guests included (match.service.ts:32). */
  function TeamsCount(teams: Option<TeamsDto>): nat {
    |AllEntries(RequestTeams(teams))|
  }

  /** A request whose rosters hold four entries creates a CLOSED match, any other a PENDING one. */
  function InitialStatus(teams: Option<TeamsDto>): (s: MatchStatus)
    ensures s == Closed <==> |Entries(RequestTeams(teams).team1)| + |Entries(RequestTeams(teams).team2)| == 4
    ensures s == Closed || s == Pending
  {
    if TeamsCount(teams) == 4 then Closed else Pending
  }

  /** The store can connect the creator and every registered player the rosters name. */
  predicate CanConnect(players: map<PlayerId, Player>, creatorId: PlayerId, teams: Option<TeamsDto>) {
    && creatorId in players
    && forall x :: x in TruthyIds(AllEntries(RequestTeams(teams))) ==> x in players
  }

  /** The row createMatch writes: createTeam(1, ...) then createTeam(2, ...), so the guests of team 1
      take the ids from `next` on and those of team 2 follow; the match's players are both teams. */
  function CreatedMatch(creatorId: PlayerId, dto: MatchDto, next: PlayerId): (m: Match)
    ensures m.dateTime == DateTime(dto.date, dto.time) && m.creatorPlayerId == creatorId
    ensures m.location == dto.location && m.description == dto.description && m.duration == dto.duration
    ensures m.pointsDeviation == dto.pointsDeviation && m.categoryId == dto.categoryId && m.genderId == dto.genderId
    ensures m.status == InitialStatus(dto.teams)
    ensures m.players == m.team1 + m.team2
    ensures var t := RequestTeams(dto.teams);
      && m.team1 == ComposeTeam(Entries(t.team1), next).members
      && m.team2 == ComposeTeam(Entries(t.team2), ComposeTeam(Entries(t.team1), next).next).members
  {
    var t := RequestTeams(dto.teams);
    var c1 := ComposeTeam(Entries(t.team1), next);
    var c2 := ComposeTeam(Entries(t.team2), c1.next);
    Match(DateTime(dto.date, dto.time), dto.location, dto.description, dto.duration, dto.pointsDeviation,
          dto.categoryId, dto.genderId, creatorId, InitialStatus(dto.teams),
          c1.members, c2.members, c1.members + c2.members)
  }

  /** The player id the store hands out next once createMatch has created its guests. */
  function NextAfterGuests(teams: Option<TeamsDto>, next: PlayerId): (r: PlayerId)
    ensures r >= next
  {
    var t := RequestTeams(teams);
    ComposeTeam(Entries(t.team2), ComposeTeam(Entries(t.team1), next).next).next
  }

  /** The guest rows created for the ids from `next` up to `last`, none of them linked to a user. */
  function Guests(next: PlayerId, last: PlayerId): (g: map<PlayerId, Player>)
    ensures forall id :: id in g <==> next <= id < last
    ensures forall id :: id in g ==> g[id] == Player(None)
    decreases last - next
  {
    if next >= last then map[] else Guests(next + 1, last)[next := Player(None)]
  }

  /** A created match has a consistent roster with one player per roster entry, so its status is
      CLOSED exactly when it starts with four players, and PENDING otherwise. */
  lemma CreatedMatchRoster(creatorId: PlayerId, dto: MatchDto, players: map<PlayerId, Player>, next: PlayerId)
    requires !RepeatsPlayer(dto.teams)
    requires CanConnect(players, creatorId, dto.teams)
    requires forall id :: id in players ==> id < next
    ensures var m := CreatedMatch(creatorId, dto, next);
      && Consistent(m)
      && |m.players| == TeamsCount(dto.teams)
      && (m.status == Closed <==> |m.players| == 4)
      && (m.status == Pending <==> |m.players| != 4)
  {
    var t := RequestTeams(dto.teams);
    var m := CreatedMatch(creatorId, dto, next);
    assert !HasRepeatedId(TruthyIds(AllEntries(t)));
    ComposedTeamsDisjoint(Entries(t.team1), Entries(t.team2), next);
    RosterSize(m);
  }

  /** Store one guest row per id from the player counter up to `last` and move the counter there. */
  method AddGuests(db: Db, last: PlayerId)
    requires db.Valid() && db.nextPlayerId <= last
    modifies db
    ensures db.Valid()
    ensures db.players == old(db.players) + Guests(old(db.nextPlayerId), last)
    ensures db.nextPlayerId == last
    ensures db.matches == old(db.matches) && db.applications == old(db.applications)
    ensures db.nextMatchId == old(db.nextMatchId) && db.nextApplicationId == old(db.nextApplicationId)
  {
    db.players := db.players + Guests(db.nextPlayerId, last);
    db.nextPlayerId := last;
  }

  /** The player table once createMatch's createTeam calls have stored the guests of both rosters. */
  function PlayersWithGuests(players: map<PlayerId, Player>, teams: Option<TeamsDto>, next: PlayerId)
    : (ps: map<PlayerId, Player>)
    ensures forall id :: id in ps <==> id in players || next <= id < NextAfterGuests(teams, next)
  {
    players + Guests(next, NextAfterGuests(teams, next))
  }

  /** createMatch: refuse a roster naming a registered player twice; then createTeam(1, ...) and
      createTeam(2, ...) store the guest players, and only then is the match written, connecting
      the creator and every named player. A connect that fails leaves the new guests behind. */
  method CreateMatch(db: Db, playerId: PlayerId, dto: MatchDto) returns (r: Result<(MatchId, Match), Error>)
    requires db.Valid()
    modifies db
    ensures db.Valid()
    ensures RepeatsPlayer(dto.teams) ==> r == Failure(Custom(PlayerAlreadyInMatch)) && unchanged(db)
    ensures !RepeatsPlayer(dto.teams) ==>
      && db.players == PlayersWithGuests(old(db.players), dto.teams, old(db.nextPlayerId))
      && db.nextPlayerId == NextAfterGuests(dto.teams, old(db.nextPlayerId))
      && db.applications == old(db.applications) && db.nextApplicationId == old(db.nextApplicationId)
      && (r.Success? <==> CanConnect(db.players, playerId, dto.teams))
    ensures r.Failure? && !RepeatsPlayer(dto.teams) ==>
      r == Failure(NotFound) && db.matches == old(db.matches) && db.nextMatchId == old(db.nextMatchId)
    ensures r.Success? ==>
      var (id, m) := r.value;
      && id == old(db.nextMatchId) && id !in old(db.matches)
      && m == CreatedMatch(playerId, dto, old(db.nextPlayerId))
      && db.matches == old(db.matches)[id := m]
      && db.nextMatchId == id + 1
      && (m.status == Closed <==> TeamsCount(dto.teams) == 4)
      && (CanConnect(old(db.players), playerId, dto.teams) ==>
            && Consistent(m)
            && |m.players| == TeamsCount(dto.teams)
            && (m.status == Closed <==> |m.players| == 4)
            && (m.status == Pending <==> |m.players| != 4))
  {
    if RepeatsPlayer(dto.teams) {
      return Failure(Custom(PlayerAlreadyInMatch));
    }
    var next := db.nextPlayerId;
    AddGuests(db, NextAfterGuests(dto.teams, next));
    if !CanConnect(db.players, playerId, dto.teams) {
      return Failure(NotFound);
    }
    var m := CreatedMatch(playerId, dto, next);
    if CanConnect(old(db.players), playerId, dto.teams) {
      CreatedMatchRoster(playerId, dto, old(db.players), next);
    }
    var id := db.nextMatchId;
    db.matches := db.matches[id := m];
    db.nextMatchId := id + 1;
    return Success((id, m));
  }

  /** deleteMatch: cancel the match, whatever its status was. */
  method DeleteMatch(db: Db, matchId: MatchId) returns (r: Result<Match, Error>)
    requires db.Valid()
    modifies db
    ensures db.Valid()
    ensures matchId !in old(db.matches) ==> r == Failure(NotFound) && unchanged(db)
    ensures matchId in old(db.matches) ==>
      && r == Success(old(db.matches)[matchId].(status := Cancelled))
      && db.matches == old(db.matches)[matchId := r.value]
      && db.players == old(db.players) && db.applications == old(db.applications)
      && db.nextPlayerId == old(db.nextPlayerId) && db.nextMatchId == old(db.nextMatchId)
      && db.nextApplicationId == old(db.nextApplicationId)
  {
    r := ChangeState(db, matchId, Cancelled);
  }

  /** changeState: set the match's status to the one given, with no check of the current one. */
  method ChangeState(db: Db, matchId: MatchId, status: MatchStatus) returns (r: Result<Match, Error>)
    requires db.Valid()
    modifies db
    ensures db.Valid()
    ensures matchId !in old(db.matches) ==> r == Failure(NotFound) && unchanged(db)
    ensures matchId in old(db.matches) ==>
      && r == Success(old(db.matches)[matchId].(status := status))
      && db.matches == old(db.matches)[matchId := r.value]
      && db.players == old(db.players) && db.applications == old(db.applications)
      && db.nextPlayerId == old(db.nextPlayerId) && db.nextMatchId == old(db.nextMatchId)
      && db.nextApplicationId == old(db.nextApplicationId)
  {
    if matchId !in db.matches {
      return Failure(NotFound);
    }
    var m := db.matches[matchId].(status := status);
    db.matches := db.matches[matchId := m];
    return Success(m);
  }

  /** addPlayerToMatch: refuse a missing match, a player already in a team and a full target team, in
      that order, then connect the player to the match and to the target team. */
  method AddPlayerToMatch(db: Db, req: AddPlayerToMatchRequest) returns (r: Result<Match, Error>)
    requires db.Valid()
    modifies db
    ensures db.Valid()
    ensures r.Failure? ==> unchanged(db)
    ensures req.matchId !in old(db.matches) ==> r == Failure(Custom(NoMatch))
    ensures req.matchId in old(db.matches) ==>
      var m := old(db.matches)[req.matchId];
      && (InAnyTeam(m, req.playerId) ==> r == Failure(Custom(PlayerAlreadyInMatch)))
      && (!InAnyTeam(m, req.playerId) && TeamIsFull(m, req.teamNumber) ==> r == Failure(Custom(ApplicationTeamFull)))
      && (!InAnyTeam(m, req.playerId) && !TeamIsFull(m, req.teamNumber) ==>
            (r.Failure? <==> req.playerId !in old(db.players) || Team(m, req.teamNumber).None?))
      && ((!InAnyTeam(m, req.playerId) && !TeamIsFull(m, req.teamNumber)
             && (req.playerId !in old(db.players) || Team(m, req.teamNumber).None?)) ==> r == Failure(NotFound))
    ensures r.Success? ==>
      var m := old(db.matches)[req.matchId];
      && (req.teamNumber == 1 || req.teamNumber == 2)
      && r.value == Connect(m, req.teamNumber, req.playerId)
      && db.matches == old(db.matches)[req.matchId := r.value]
      && r.value.status == m.status
      && Team(r.value, 3 - req.teamNumber) == Team(m, 3 - req.teamNumber)
      && |Team(r.value, req.teamNumber).value| == |Team(m, req.teamNumber).value| + 1 <= 2
      && (Consistent(m) ==> Consistent(r.value))
      && db.players == old(db.players) && db.applications == old(db.applications)
      && db.nextPlayerId == old(db.nextPlayerId) && db.nextMatchId == old(db.nextMatchId)
      && db.nextApplicationId == old(db.nextApplicationId)
  {
    if req.matchId !in db.matches {
      return Failure(Custom(NoMatch));
    }
    var m := db.matches[req.matchId];
    if InAnyTeam(m, req.playerId) {
      return Failure(Custom(PlayerAlreadyInMatch));
    }
    if TeamIsFull(m, req.teamNumber) {
      return Failure(Custom(ApplicationTeamFull));
    }
    // The update connects an existing player and updates the team (matchId, teamNumber).
    if req.playerId !in db.players || Team(m, req.teamNumber).None? {
      return Failure(NotFound);
    }
    var updated := Connect(m, req.teamNumber, req.playerId);
    ConnectPlacesPlayer(m, req.teamNumber, req.playerId);
    db.matches := db.matches[req.matchId := updated];
    return Success(updated);
  }

  /** The truthy `genderId` updateMatch works with: the request's, or else (when teams are sent) the
      match's current one, read before the update. */
  function ResolvedGender(m: Match, dto: UpdateMatchDto): (g: Option<int>)
    ensures Truthy(dto.genderId) ==> g == dto.genderId
    ensures dto.teams.None? ==> g == dto.genderId
    ensures dto.teams.Some? && !Truthy(dto.genderId) ==> g == Some(m.genderId)
  {
    if dto.teams.Some? && !Truthy(dto.genderId) then Some(m.genderId) else dto.genderId
  }

  /** `s` is supplied and non-empty. */
  predicate Filled(s: Option<string>) {
    s.Some? && s.value != ""
  }

  /** The scalar part of updateMatch: each field changes only when the request supplies it, the
      timestamp only when both a date and a time are given. */
  function ApplyScalars(m: Match, dto: UpdateMatchDto): (r: Match)
    ensures r.status == m.status && r.creatorPlayerId == m.creatorPlayerId
    ensures r.team1 == m.team1 && r.team2 == m.team2 && r.players == m.players
    ensures r.location == (if dto.location.Some? then dto.location.value else m.location)
    ensures dto.description.Some? ==> r.description == dto.description
    ensures dto.description.None? ==> r.description == m.description
    ensures r.duration == (if dto.duration.Some? then dto.duration.value else m.duration)
    ensures r.pointsDeviation == (if dto.pointsDeviation.Some? then dto.pointsDeviation.value else m.pointsDeviation)
    ensures r.genderId == (if dto.genderId.Some? then dto.genderId.value else m.genderId)
    ensures r.categoryId == (if dto.categoryId.Some? then dto.categoryId.value else m.categoryId)
    ensures r.dateTime == (if Filled(dto.date) && Filled(dto.time) then DateTime(dto.date.value, dto.time.value) else m.dateTime)
  {
    Match(
      if Filled(dto.date) && Filled(dto.time) then DateTime(dto.date.value, dto.time.value) else m.dateTime,
      if dto.location.Some? then dto.location.value else m.location,
      if dto.description.Some? then dto.description else m.description,
      if dto.duration.Some? then dto.duration.value else m.duration,
      if dto.pointsDeviation.Some? then dto.pointsDeviation.value else m.pointsDeviation,
      if dto.categoryId.Some? then dto.categoryId.value else m.categoryId,
      if dto.genderId.Some? then dto.genderId.value else m.genderId,
      m.creatorPlayerId, m.status, m.team1, m.team2, m.players)
  }

  /** The effect of updateTeams: each supplied roster replaces its team (registered players
      connected, guests created from `next` on, team 1 first); a team not supplied keeps its players;
      the match's players become both teams. */
  function ReplaceTeams(m: Match, t: TeamsDto, next: PlayerId): (r: Match)
    ensures r == m.(team1 := r.team1, team2 := r.team2, players := r.players)
    ensures r.players == r.team1 + r.team2
    ensures t.team1.None? ==> r.team1 == m.team1
    ensures t.team2.None? ==> r.team2 == m.team2
    ensures var c1 := ComposeTeam(Entries(t.team1), next);
      && (t.team1.Some? ==> r.team1 == c1.members)
      && (t.team2.Some? ==> r.team2 == ComposeTeam(Entries(t.team2), c1.next).members)
  {
    var c1 := ComposeTeam(Entries(t.team1), next);
    var c2 := ComposeTeam(Entries(t.team2), c1.next);
    var team1 := if t.team1.Some? then c1.members else m.team1;
    var team2 := if t.team2.Some? then c2.members else m.team2;
    m.(team1 := team1, team2 := team2, players := team1 + team2)
  }

  /** When both rosters are sent, pass the duplicate test and name only players older than the new
      guests, the replaced teams are disjoint and hold one player per roster entry. */
  lemma ReplacedTeamsConsistent(m: Match, t: TeamsDto, next: PlayerId)
    requires t.team1.Some? && t.team2.Some?
    requires !RepeatsPlayer(Some(t))
    requires forall x :: x in TruthyIds(AllEntries(t)) ==> x < next
    ensures Consistent(ReplaceTeams(m, t, next))
    ensures |ReplaceTeams(m, t, next).players| == |AllEntries(t)|
  {
    ComposedTeamsDisjoint(Entries(t.team1), Entries(t.team2), next);
    RosterSize(ReplaceTeams(m, t, next));
  }

  /** The store can connect every registered player the rosters name. */
  predicate RosterConnectable(players: map<PlayerId, Player>, t: TeamsDto) {
    forall x :: x in TruthyIds(AllEntries(t)) ==> x in players
  }

  /** Whether updateMatch goes on to update the teams: teams are sent and a truthy gender id resolves. */
  predicate TeamsUpdated(m: Match, dto: UpdateMatchDto) {
    dto.teams.Some? && Truthy(ResolvedGender(m, dto))
  }

  /** The updateTeams write: create the guests of the new rosters and store the replaced teams. */
  method WriteTeams(db: Db, matchId: MatchId, base: Match, t: TeamsDto) returns (updated: Match)
    requires db.Valid() && matchId in db.matches
    modifies db
    ensures db.Valid()
    ensures updated == ReplaceTeams(base, t, old(db.nextPlayerId))
    ensures db.matches == old(db.matches)[matchId := updated]
    ensures db.nextPlayerId == NextAfterGuests(Some(t), old(db.nextPlayerId))
    ensures db.players == old(db.players) + Guests(old(db.nextPlayerId), db.nextPlayerId)
    ensures db.applications == old(db.applications)
    ensures db.nextMatchId == old(db.nextMatchId) && db.nextApplicationId == old(db.nextApplicationId)
  {
    updated := ReplaceTeams(base, t, db.nextPlayerId);
    AddGuests(db, NextAfterGuests(Some(t), db.nextPlayerId));
    db.matches := db.matches[matchId := updated];
  }

  /** updateMatch: write the supplied scalar fields first; then, only when teams are sent and a gender
      id can be resolved, run the duplicate test (the scalar write stays when it fails) and replace
      the teams. */
  method UpdateMatch(db: Db, matchId: MatchId, dto: UpdateMatchDto) returns (r: Result<Match, Error>)
    requires db.Valid()
    modifies db
    ensures db.Valid()
    ensures matchId !in old(db.matches) ==> r == Failure(NotFound) && unchanged(db)
    ensures matchId in old(db.matches) ==>
      && db.applications == old(db.applications)
      && db.nextMatchId == old(db.nextMatchId) && db.nextApplicationId == old(db.nextApplicationId)
    ensures matchId in old(db.matches) && !TeamsUpdated(old(db.matches)[matchId], dto) ==>
      && r == Success(ApplyScalars(old(db.matches)[matchId], dto))
      && db.matches == old(db.matches)[matchId := r.value]
      && db.players == old(db.players) && db.nextPlayerId == old(db.nextPlayerId)
    ensures matchId in old(db.matches) && TeamsUpdated(old(db.matches)[matchId], dto) && RepeatsPlayer(dto.teams) ==>
      && r == Failure(Custom(PlayerAlreadyInMatch))
      && db.matches == old(db.matches)[matchId := ApplyScalars(old(db.matches)[matchId], dto)]
      && db.players == old(db.players) && db.nextPlayerId == old(db.nextPlayerId)
    ensures matchId in old(db.matches) && TeamsUpdated(old(db.matches)[matchId], dto) && !RepeatsPlayer(dto.teams)
            && !RosterConnectable(old(db.players), dto.teams.value) ==>
      && r == Failure(NotFound)
      && db.matches == old(db.matches)[matchId := ApplyScalars(old(db.matches)[matchId], dto)]
      && db.players == old(db.players) && db.nextPlayerId == old(db.nextPlayerId)
    ensures matchId in old(db.matches) && TeamsUpdated(old(db.matches)[matchId], dto) && !RepeatsPlayer(dto.teams)
            && RosterConnectable(old(db.players), dto.teams.value) ==>
      && r == Success(ReplaceTeams(ApplyScalars(old(db.matches)[matchId], dto), dto.teams.value, old(db.nextPlayerId)))
      && db.matches == old(db.matches)[matchId := r.value]
      && db.nextPlayerId == NextAfterGuests(dto.teams, old(db.nextPlayerId))
      && db.players == old(db.players) + Guests(old(db.nextPlayerId), db.nextPlayerId)
  {
    if matchId !in db.matches {
      return Failure(NotFound);
    }
    var m := db.matches[matchId];
    var genderId := dto.genderId;
    if dto.teams.Some? && !Truthy(genderId) {
      genderId := Some(m.genderId);
    }
    var scalars := ApplyScalars(m, dto);
    db.matches := db.matches[matchId := scalars];
    if dto.teams.Some? && Truthy(genderId) {
      if RepeatsPlayer(dto.teams) {
        return Failure(Custom(PlayerAlreadyInMatch));
      }
      if !RosterConnectable(db.players, dto.teams.value) {
        return Failure(NotFound);
      }
      var updated := WriteTeams(db, matchId, scalars, dto.teams.value);
      return Success(updated);
    }
    return Success(scalars);
  }

  /** deletePlayerFromMatch: refuse a missing match, a player in no team and a missing player record,
      in that order; then disconnect the player from the match and from the team holding them,
      delete the player record when it is a guest, and reopen the match when it was not PENDING.
      The match returned is the one read right after the disconnect, before the status write. */
  method DeletePlayerFromMatch(db: Db, req: DeletePlayerFromMatchRequest) returns (r: Result<Match, Error>)
    requires db.Valid()
    modifies db
    ensures db.Valid()
    ensures r.Failure? ==> unchanged(db)
    ensures req.matchId !in old(db.matches) ==> r == Failure(Custom(NoMatch))
    ensures req.matchId in old(db.matches) ==>
      var m := old(db.matches)[req.matchId];
      && (!InAnyTeam(m, req.playerId) ==> r == Failure(Custom(Unauthorized)))
      && (InAnyTeam(m, req.playerId) && req.playerId !in old(db.players) ==> r == Failure(Custom(NoPlayer)))
      && (InAnyTeam(m, req.playerId) && req.playerId in old(db.players) ==> r.Success?)
    ensures r.Success? ==>
      var m := old(db.matches)[req.matchId];
      var n := TeamContaining(m, req.playerId).value;
      var guest := IsGuestPlayer(old(db.players)[req.playerId]);
      && r.value == Disconnect(m, n, req.playerId)
      && r.value.status == m.status
      && db.matches == old(db.matches)[req.matchId := r.value.(status := Pending)]
      && req.playerId !in db.matches[req.matchId].players
      && (Consistent(m) ==> Consistent(r.value) && !InAnyTeam(r.value, req.playerId))
      && (guest ==> db.players == old(db.players) - {req.playerId})
      && (!guest ==> db.players == old(db.players))
      && db.applications == old(db.applications)
      && db.nextPlayerId == old(db.nextPlayerId) && db.nextMatchId == old(db.nextMatchId)
      && db.nextApplicationId == old(db.nextApplicationId)
  {
    if req.matchId !in db.matches {
      return Failure(Custom(NoMatch));
    }
    var m := db.matches[req.matchId];
    var n := TeamContaining(m, req.playerId);
    if n.None? {
      return Failure(Custom(Unauthorized));
    }
    if req.playerId !in db.players {
      return Failure(Custom(NoPlayer));
    }
    var player := db.players[req.playerId];
    var updated := Disconnect(m, n.value, req.playerId);
    if Consistent(m) {
      DisconnectKeepsConsistent(m, req.playerId);
    }
    db.matches := db.matches[req.matchId := updated];
    if IsGuestPlayer(player) {
      db.players := db.players - {req.playerId};
    }
    if m.status != Pending {
      db.matches := db.matches[req.matchId := updated.(status := Pending)];
    }
    return Success(updated);
  }

  /** The ids of the COMPLETED matches whose players include p. */
  function CompletedWith(matches: map<MatchId, Match>, p: PlayerId): set<MatchId> {
    set id | id in matches && p in matches[id].players && matches[id].status == Completed
  }

  /** getPlayerMatchesCount: the number of COMPLETED matches whose players include p; it is 0
      exactly when no COMPLETED match lists p. */
  function PlayerMatchesCount(matches: map<MatchId, Match>, p: PlayerId): (n: nat)
    ensures n <= |matches|
    ensures n == 0 <==> forall id :: id in matches && p in matches[id].players ==> matches[id].status != Completed
  {
    SubsetSize(CompletedWith(matches, p), matches.Keys);
    NoneCompletedWith(matches, p);
    |CompletedWith(matches, p)|
  }

  lemma NoneCompletedWith(matches: map<MatchId, Match>, p: PlayerId)
    ensures CompletedWith(matches, p) == {} <==>
      forall id :: id in matches && p in matches[id].players ==> matches[id].status != Completed
  {
    if forall id :: id in matches && p in matches[id].players ==> matches[id].status != Completed {
      assert forall id :: id !in CompletedWith(matches, p);
    } else {
      var id :| id in matches && p in matches[id].players && matches[id].status == Completed;
      assert id in CompletedWith(matches, p);
    }
  }

  /** Completing one match that lists p (the write changeState makes) raises p's count of completed
      matches by exactly one; completing a match that does not list p leaves it unchanged. */
  lemma CompletingRaisesCount(matches: map<MatchId, Match>, id: MatchId, p: PlayerId)
    requires id in matches && matches[id].status != Completed
    ensures var after := matches[id := matches[id].(status := Completed)];
      PlayerMatchesCount(after, p) == PlayerMatchesCount(matches, p) + (if p in matches[id].players then 1 else 0)
  {
    var after := matches[id := matches[id].(status := Completed)];
    var before := CompletedWith(matches, p);
    assert id !in before;
    if p in matches[id].players {
      assert CompletedWith(after, p) == before + {id};
    } else {
      assert CompletedWith(after, p) == before;
    }
  }

  lemma SubsetSize<T>(a: set<T>, b: set<T>)
    requires a <= b
    ensures |a| <= |b|
  {
    assert b == a + (b - a);
  }
}
