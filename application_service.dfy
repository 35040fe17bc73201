/** The application service: a player applies to a match, and the match's creator accepts or rejects
    the application. Each operation checks its guards in a fixed order, then writes the store. */
module ApplicationService {
  import opened Common
  import opened Domain
  import opened Store

  /** The body of an application request (CreateApplicationBody). */
  datatype CreateApplicationBody = CreateApplicationBody(
    matchId: MatchId,
    teamNumber: Option<int>,
    message: Option<string>,
    phone: Option<string>)

  /** The existing-application search of applyToMatch (application.service.ts:28): some stored
      application of the player on the match. */
  predicate HasApplied(apps: map<ApplicationId, Application>, matchId: MatchId, playerId: PlayerId) {
    exists id :: id in apps && apps[id].matchId == matchId && apps[id].playerId == playerId
  }

  /** The search ignores status: deciding an application, whichever way, neither hides it from the
      search nor makes another one appear. */
  lemma HasAppliedIgnoresStatus(apps: map<ApplicationId, Application>, id: ApplicationId, s: ApplicationStatus,
                                matchId: MatchId, playerId: PlayerId)
    requires id in apps
    ensures HasApplied(apps[id := apps[id].(status := s)], matchId, playerId) == HasApplied(apps, matchId, playerId)
  {
    var decided := apps[id := apps[id].(status := s)];
    if HasApplied(apps, matchId, playerId) {
      var k :| k in apps && apps[k].matchId == matchId && apps[k].playerId == playerId;
      assert k in decided && decided[k].matchId == matchId && decided[k].playerId == playerId;
    }
    if HasApplied(decided, matchId, playerId) {
      var k :| k in decided && decided[k].matchId == matchId && decided[k].playerId == playerId;
      assert k in apps && apps[k].matchId == matchId && apps[k].playerId == playerId;
    }
  }

  /** applyToMatch: refuse a missing match, a player who already applied to it and (only when a
      truthy team number is requested) a full requested team, in that order; then store one new
      application. Neither the match nor its teams change. */
  method ApplyToMatch(db: Db, playerId: PlayerId, body: CreateApplicationBody)
    returns (r: Result<(ApplicationId, Application), Error>)
    requires db.Valid()
    modifies db
    ensures db.Valid()
    ensures r.Failure? ==> unchanged(db)
    ensures body.matchId !in old(db.matches) ==> r == Failure(Custom(NoMatch))
    ensures body.matchId in old(db.matches) ==>
      var m := old(db.matches)[body.matchId];
      var applied := HasApplied(old(db.applications), body.matchId, playerId);
      var full := Truthy(body.teamNumber) && TeamIsFull(m, body.teamNumber.value);
      && (applied ==> r == Failure(Custom(ApplicationAlreadyExists)))
      && (!applied && full ==> r == Failure(Custom(ApplicationTeamFull)))
      && (!applied && !full && playerId !in old(db.players) ==> r == Failure(NotFound))
      && (!applied && !full && playerId in old(db.players) ==> r.Success?)
    ensures r.Success? ==>
      var (id, a) := r.value;
      && id == old(db.nextApplicationId) && id !in old(db.applications)
      && a == Application(body.matchId, playerId, body.teamNumber, body.message, body.phone, ApplicationPending)
      && db.applications == old(db.applications)[id := a]
      && HasApplied(db.applications, body.matchId, playerId)
      && db.matches == old(db.matches) && db.players == old(db.players)
      && db.nextMatchId == old(db.nextMatchId) && db.nextPlayerId == old(db.nextPlayerId)
      && db.nextApplicationId == id + 1
  {
    if body.matchId !in db.matches {
      return Failure(Custom(NoMatch));
    }
    var m := db.matches[body.matchId];
    if HasApplied(db.applications, body.matchId, playerId) {
      return Failure(Custom(ApplicationAlreadyExists));
    }
    if Truthy(body.teamNumber) && TeamIsFull(m, body.teamNumber.value) {
      return Failure(Custom(ApplicationTeamFull));
    }
    // The create connects the applying player, who must exist.
    if playerId !in db.players {
      return Failure(NotFound);
    }
    var id := db.nextApplicationId;
    // The create writes no status: the row takes the schema's default, PENDING.
    var a := Application(body.matchId, playerId, body.teamNumber, body.message, body.phone, ApplicationPending);
    db.applications := db.applications[id := a];
    db.nextApplicationId := id + 1;
    assert db.applications[id] == a;
    return Success((id, a));
  }

  /** The four guards acceptApplication and rejectApplication share, first failing one reported:
      the application exists, the acting player created its match, the application is still
      PENDING, and so is the match. */
  function ReviewCheck(matches: map<MatchId, Match>, apps: map<ApplicationId, Application>, actor: PlayerId,
                       appId: ApplicationId): (e: Option<Error>)
    ensures appId !in apps ==> e == Some(Custom(ApplicationNoExist))
    ensures appId in apps && (apps[appId].matchId !in matches || matches[apps[appId].matchId].creatorPlayerId != actor) ==>
      e == Some(Custom(Unauthorized))
    ensures appId in apps && apps[appId].matchId in matches && matches[apps[appId].matchId].creatorPlayerId == actor ==>
      && (apps[appId].status != ApplicationPending ==> e == Some(Custom(ApplicationClosed)))
      && (apps[appId].status == ApplicationPending && matches[apps[appId].matchId].status != Pending ==>
            e == Some(Custom(ApplicationMatchClosed)))
    ensures e.None? <==>
      && appId in apps
      && apps[appId].matchId in matches
      && matches[apps[appId].matchId].creatorPlayerId == actor
      && apps[appId].status == ApplicationPending
      && matches[apps[appId].matchId].status == Pending
  {
    if appId !in apps then Some(Custom(ApplicationNoExist))
    else
      var a := apps[appId];
      if a.matchId !in matches || matches[a.matchId].creatorPlayerId != actor then Some(Custom(Unauthorized))
      else if a.status != ApplicationPending then Some(Custom(ApplicationClosed))
      else if matches[a.matchId].status != Pending then Some(Custom(ApplicationMatchClosed))
      else None
  }

  /** Once an application is accepted or rejected, its creator can neither accept nor reject it
      again: the review stops at APPLICATION_CLOSED. */
  lemma DecisionIsFinal(matches: map<MatchId, Match>, apps: map<ApplicationId, Application>, actor: PlayerId,
                        appId: ApplicationId)
    requires appId in apps && apps[appId].matchId in matches
    requires matches[apps[appId].matchId].creatorPlayerId == actor
    requires apps[appId].status != ApplicationPending
    ensures ReviewCheck(matches, apps, actor, appId) == Some(Custom(ApplicationClosed))
  {
  }

  /** The guards of acceptApplication: the shared review, then the capacity of the team the
      application asked for (`teams.find(...)!` fails when no team has that number), then what the
      write needs: an existing applicant and a team with the number the creator chose. */
  function AcceptCheck(matches: map<MatchId, Match>, apps: map<ApplicationId, Application>,
                       players: map<PlayerId, Player>, actor: PlayerId, appId: ApplicationId,
                       teamNumber: int): (e: Option<Error>)
    ensures ReviewCheck(matches, apps, actor, appId).Some? ==> e == ReviewCheck(matches, apps, actor, appId)
    ensures e.None? ==>
      && ReviewCheck(matches, apps, actor, appId).None?
      && apps[appId].teamNumber.Some?
      && !TeamIsFull(matches[apps[appId].matchId], apps[appId].teamNumber.value)
      && Team(matches[apps[appId].matchId], apps[appId].teamNumber.value).Some?
      && apps[appId].playerId in players
      && (teamNumber == 1 || teamNumber == 2)
    ensures ReviewCheck(matches, apps, actor, appId).None? ==>
      var a := apps[appId];
      var m := matches[a.matchId];
      && (a.teamNumber.None? || Team(m, a.teamNumber.value).None? ==> e == Some(TypeError))
      && (a.teamNumber.Some? && TeamIsFull(m, a.teamNumber.value) ==> e == Some(Custom(ApplicationTeamFull)))
      && (a.teamNumber.Some? && Team(m, a.teamNumber.value).Some? && !TeamIsFull(m, a.teamNumber.value) ==>
            if a.playerId in players && (teamNumber == 1 || teamNumber == 2) then e.None? else e == Some(NotFound))
  {
    var review := ReviewCheck(matches, apps, actor, appId);
    if review.Some? then review
    else
      var a := apps[appId];
      var m := matches[a.matchId];
      if a.teamNumber.None? || Team(m, a.teamNumber.value).None? then Some(TypeError)
      else if TeamIsFull(m, a.teamNumber.value) then Some(Custom(ApplicationTeamFull))
      else if a.playerId !in players || Team(m, teamNumber).None? then Some(NotFound)
      else None
  }

  /** acceptApplication: after the guards, add the applicant to the match and to the team numbered by
      the `teamNumber` argument (not necessarily the one the capacity guard looked at), then mark the
      application ACCEPTED. */
  method AcceptApplication(db: Db, playerId: PlayerId, applicationId: ApplicationId, teamNumber: int)
    returns (r: Result<Application, Error>)
    requires db.Valid()
    modifies db
    ensures db.Valid()
    ensures r.Failure? ==> unchanged(db)
    ensures r.Failure? <==> AcceptCheck(old(db.matches), old(db.applications), old(db.players), playerId, applicationId, teamNumber).Some?
    ensures r.Failure? ==>
      r.error == AcceptCheck(old(db.matches), old(db.applications), old(db.players), playerId, applicationId, teamNumber).value
    ensures ReviewCheck(old(db.matches), old(db.applications), playerId, applicationId).Some? ==>
      r == Failure(ReviewCheck(old(db.matches), old(db.applications), playerId, applicationId).value)
    ensures ReviewCheck(old(db.matches), old(db.applications), playerId, applicationId).None? ==>
      var a := old(db.applications)[applicationId];
      var m := old(db.matches)[a.matchId];
      && (a.teamNumber.None? || Team(m, a.teamNumber.value).None? ==> r == Failure(TypeError))
      && (a.teamNumber.Some? && TeamIsFull(m, a.teamNumber.value) ==> r == Failure(Custom(ApplicationTeamFull)))
    ensures r.Success? ==>
      var a := old(db.applications)[applicationId];
      var m := old(db.matches)[a.matchId];
      var joined := Connect(m, teamNumber, a.playerId);
      && r.value == a.(status := ApplicationAccepted)
      && db.applications == old(db.applications)[applicationId := r.value]
      && db.matches == old(db.matches)[a.matchId := joined]
      && a.playerId in joined.players && a.playerId in Team(joined, teamNumber).value
      && joined.status == m.status
      && (Some(teamNumber) == a.teamNumber && a.playerId !in m.team1 + m.team2 ==> |Team(joined, teamNumber).value| <= 2)
      && (Consistent(m) && !InAnyTeam(m, a.playerId) ==> Consistent(joined))
      && db.players == old(db.players)
      && db.nextMatchId == old(db.nextMatchId) && db.nextPlayerId == old(db.nextPlayerId)
      && db.nextApplicationId == old(db.nextApplicationId)
  {
    var check := AcceptCheck(db.matches, db.applications, db.players, playerId, applicationId, teamNumber);
    if check.Some? {
      return Failure(check.value);
    }
    var a := db.applications[applicationId];
    var m := db.matches[a.matchId];
    // addPlayerToMatchFromApplication(application, teamNumber)
    var joined := Connect(m, teamNumber, a.playerId);
    ConnectPlacesPlayer(m, teamNumber, a.playerId);
    db.matches := db.matches[a.matchId := joined];
    // changeApplicationStatus(applicationId, ACCEPTED)
    var accepted := Application(a.matchId, a.playerId, a.teamNumber, a.message, a.phone, ApplicationAccepted);
    db.applications := db.applications[applicationId := accepted];
    return Success(accepted);
  }

  /** rejectApplication: after the four shared guards, mark the application REJECTED; no roster and
      no match status changes. */
  method RejectApplication(db: Db, playerId: PlayerId, applicationId: ApplicationId)
    returns (r: Result<Application, Error>)
    requires db.Valid()
    modifies db
    ensures db.Valid()
    ensures r.Failure? ==> unchanged(db)
    ensures ReviewCheck(old(db.matches), old(db.applications), playerId, applicationId).Some? ==>
      r == Failure(ReviewCheck(old(db.matches), old(db.applications), playerId, applicationId).value)
    ensures ReviewCheck(old(db.matches), old(db.applications), playerId, applicationId).None? ==>
      && r == Success(old(db.applications)[applicationId].(status := ApplicationRejected))
      && db.applications == old(db.applications)[applicationId := r.value]
      && db.matches == old(db.matches) && db.players == old(db.players)
      && db.nextMatchId == old(db.nextMatchId) && db.nextPlayerId == old(db.nextPlayerId)
      && db.nextApplicationId == old(db.nextApplicationId)
  {
    var check := ReviewCheck(db.matches, db.applications, playerId, applicationId);
    if check.Some? {
      return Failure(check.value);
    }
    var rejected := db.applications[applicationId].(status := ApplicationRejected);
    db.applications := db.applications[applicationId := rejected];
    return Success(rejected);
  }

  /** A second application by the same player to the same match is refused, even after the creator
      has rejected the first one: the guard looks for an application of any status. */
  method ApplyTwice(db: Db, playerId: PlayerId, creator: PlayerId, body: CreateApplicationBody,
                    other: CreateApplicationBody)
    returns (first: Result<(ApplicationId, Application), Error>, second: Result<(ApplicationId, Application), Error>)
    requires db.Valid()
    requires other.matchId == body.matchId
    modifies db
    ensures first.Success? ==> second == Failure(Custom(ApplicationAlreadyExists))
  {
    first := ApplyToMatch(db, playerId, body);
    if first.Success? {
      var id := first.value.0;
      var rejected := RejectApplication(db, creator, id);
      assert id in db.applications && db.applications[id].matchId == body.matchId;
      assert db.applications[id].playerId == playerId;
    }
    second := ApplyToMatch(db, playerId, other);
  }

  /** After the creator accepts or rejects an application, a further accept or reject of it by the
      creator fails with APPLICATION_CLOSED. */
  method DecideTwice(db: Db, creator: PlayerId, applicationId: ApplicationId, accept: bool, teamNumber: int)
    returns (first: Result<Application, Error>, again: Result<Application, Error>, rejectAgain: Result<Application, Error>)
    requires db.Valid()
    modifies db
    ensures first.Success? ==> again == Failure(Custom(ApplicationClosed))
    ensures first.Success? ==> rejectAgain == Failure(Custom(ApplicationClosed))
  {
    if accept {
      first := AcceptApplication(db, creator, applicationId, teamNumber);
    } else {
      first := RejectApplication(db, creator, applicationId);
    }
    if first.Success? {
      DecisionIsFinal(db.matches, db.applications, creator, applicationId);
    }
    again := AcceptApplication(db, creator, applicationId, teamNumber);
    rejectAgain := RejectApplication(db, creator, applicationId);
  }

  /** The capacity guard reads the team the application asked for while the applicant joins the team
      the creator names: a match with team 1 full and team 2 holding one player accepts an
      application for team 2 into team 1, which then holds three players. */
  lemma AcceptCanOverfillTeam()
    ensures
      var m := Match("2024-05-01T18:00:00.000Z", "Club", None, 90, 0, 1, 1, 10, Pending, {10, 11}, {12}, {10, 11, 12});
      var apps := map[7 := Application(1, 13, Some(2), None, None, ApplicationPending)];
      && AcceptCheck(map[1 := m], apps, map[13 := Player(None)], 10, 7, 1).None?
      && |Connect(m, 1, 13).team1| == 3
  {
    var m := Match("2024-05-01T18:00:00.000Z", "Club", None, 90, 0, 1, 1, 10, Pending, {10, 11}, {12}, {10, 11, 12});
    assert |m.team2| == 1;
    assert Connect(m, 1, 13).team1 == {10, 11, 13};
  }

  /** Nothing stops a player already in a team from applying and being accepted into the other team;
      the match's player list then no longer adds up to its two teams. */
  lemma AcceptCanDuplicatePlayer()
    ensures
      var m := Match("2024-05-01T18:00:00.000Z", "Club", None, 90, 0, 1, 1, 10, Pending, {10, 13}, {}, {10, 13});
      var apps := map[7 := Application(1, 13, Some(2), None, None, ApplicationPending)];
      && Consistent(m)
      && AcceptCheck(map[1 := m], apps, map[13 := Player(None)], 10, 7, 2).None?
      && !Consistent(Connect(m, 2, 13))
  {
    var m := Match("2024-05-01T18:00:00.000Z", "Club", None, 90, 0, 1, 1, 10, Pending, {10, 13}, {}, {10, 13});
    assert 13 in Connect(m, 2, 13).team1 * Connect(m, 2, 13).team2;
  }
}
