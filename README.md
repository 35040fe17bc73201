# Padel match lifecycle, modelled in Dafny

This project models the core of a backend for organising padel matches. Players create matches
with two teams (numbered 1 and 2). Players are added to and removed from those teams, and they
apply to join. The match's creator accepts or rejects each application. Everything else in the
repository is HTTP routing and database plumbing.

The database is one object, `Store.Db`. It holds three tables as maps (matches, applications,
players) and one id counter per table, which models the database's autoincrement. The two service
files become two modules of methods over that object: `MatchService` and `ApplicationService`.
Each method checks the source's guards in the source's order and returns
`Result<_, Error>`, then writes the tables. Its `ensures` give the error for each failing guard,
say that a failure changes nothing (except where the source writes before it fails), and give
the complete new state on success.

Errors: `Error.Custom(code)` is the services' `CustomError` with its `ErrorCode`.
`Error.NotFound` is the database refusing a write because a record it must update or connect is
absent. `Error.TypeError` is the `!` dereference in acceptApplication failing.

Representation choices:
- A match always has team 1 and team 2, because createMatch creates both.
- Teams and the match's player list are many-to-many relations, so they are sets of player ids.
  Connecting a player who is already present changes nothing.
- Ids, gender ids and user ids use JavaScript truthiness: present and non-zero. Strings are
  truthy when non-empty.
- The source of `createTeam`, `updateTeams`, `addPlayerToMatchFromApplication`,
  `changeApplicationStatus`, `getApplicationById` and `getPlayerById` is not part of this model.
  Each is modelled by its effect at the call site:
  - createTeam stores one guest player per entry without a truthy id and hands back every id to
    connect. Guests take the next player ids, team 1's guests first (`Roster.ComposeTeam`).
    createMatch calls it for both teams before it writes the match, so a match write that fails
    leaves the new guests stored.
  - updateTeams replaces each roster it is given and keeps a team it is not given. The match's
    player list becomes the union of both teams (`MatchService.ReplaceTeams`).
  - addPlayerToMatchFromApplication connects the applicant to the match and to team `n`
    (`Domain.Connect`).
  - changeApplicationStatus overwrites the application's status.
  - The two lookups read the maps.

The roster and capacity properties are stated per operation, not as global invariants,
because the source does not keep them globally:
- acceptApplication checks capacity on the team the application asked for, but places the
  applicant in the team the creator names (`ApplicationService.AcceptCanOverfillTeam`).
- Nothing stops a player who is already in one team from being accepted into the other
  (`ApplicationService.AcceptCanDuplicatePlayer`).
- Once a player sits in both teams, deletePlayerFromMatch removes them from the first team only
  (`Domain.DisconnectLeavesSecondCopy`).

Behaviour of the code that the model keeps:
- The duplicate-player error of createMatch and updateMatch is `PLAYER_ALREADY_IN_MATCH`.
- The full-team error of addPlayerToMatch, applyToMatch and acceptApplication is
  `APPLICATION_TEAM_FULL`.
- createMatch derives the status from the number of roster entries, not from the players per
  team: three entries in team 1 and one in team 2 make a CLOSED match.
- deletePlayerFromMatch deletes a guest player whenever it is removed from a match, whatever other
  matches it plays in.
- acceptApplication places the applicant in the team given by its `teamNumber` argument, while its
  capacity guard reads the team the application asked for.
- deletePlayerFromMatch sets any status other than PENDING back to PENDING, CANCELLED and
  COMPLETED included.

## Model

| member | source | states |
|---|---|---|
| `Roster.TruthyIds` | src/modules/match/match.service.ts:22-23 | the ids compared for duplicates are never 0 and are at most one per roster entry |
| `Roster.ElementsSize` | src/modules/match/match.service.ts:24-26 | the `Set` of the ids is never larger than the list, and equally large exactly when no id repeats |
| `Roster.RepeatedIdIff` | src/modules/match/match.service.ts:24-26 | on any list of ids, the length-versus-Set-size test fails exactly when some id occurs at two positions |
| `Roster.RepeatsPlayerIff` | src/modules/match/match.service.ts:21-28 | the duplicate test on a request's rosters fails exactly when two entries of team1 ++ team2 carry the same registered (truthy) id; guests are never compared |
| `Roster.ComposeTeam` | src/modules/match/match.service.ts:34-35 | createTeam's team holds the roster's registered players plus exactly one new guest per guest entry, numbered from the next free player id |
| `Roster.ComposedSize` | src/modules/match/match.service.ts:34-35 | a roster whose registered players are distinct and older than the new guests yields a team of one player per entry |
| `Roster.ComposedTeamsDisjoint` | src/modules/match/match.service.ts:31-57 | once the duplicate test passes, the two created teams share no player and each has one player per entry |
| `Domain.InAnyTeam` | src/modules/match/match.service.ts:222 | a player is in the match's teams exactly when some team number finds a team holding them |
| `Domain.TeamIsFull` | src/modules/match/match.service.ts:229-230 | the capacity guard fires exactly when the number is 1 or 2 and that team already holds 2 or more players; a number with no team never fires it |
| `Domain.Connect` | src/modules/match/match.service.ts:240-256 | the connect adds the player to the match's player list and to team n, leaves the other team and every scalar field as they were |
| `Domain.Disconnect` | src/modules/match/match.service.ts:397-415 | the disconnect removes the player from the match's player list and from team n, leaves the other team and every scalar field as they were |
| `Domain.Team` | src/modules/match/match.service.ts:229 | looking a team up by number finds one exactly for numbers 1 and 2, and its players belong to the match's teams |
| `Domain.TeamContaining` | src/modules/match/match.service.ts:382 | the team search finds a team exactly when the player is in some team, that team holds the player, and team 1 is searched first |
| `Domain.RosterSize` | src/modules/match/match.service.ts:55 | when the player list is the union of two disjoint teams, the team sizes add up to the number of players |
| `Domain.ConnectKeepsConsistent` | src/modules/match/match.service.ts:235-258 | connecting a player who is in no team keeps the roster consistent, adds exactly one player to the target team and to the match, and leaves the other team and the status unchanged |
| `Domain.ConnectPlacesPlayer` | src/modules/match/match.service.ts:235-258 | connecting a player to team n puts them in the match and in team n, leaves the other team and the status alone, grows team n by one when they were in no team (so a team that was not full ends with at most 2 players), and keeps a consistent roster consistent |
| `Domain.DisconnectKeepsConsistent` | src/modules/match/match.service.ts:395-416 | disconnecting a player from the team that holds them keeps the roster consistent, removes them from every team and from the player list, and leaves the status unchanged |
| `Domain.DisconnectLeavesSecondCopy` | src/modules/match/match.service.ts:382-416 | a player in both teams is removed from team 1 only, so they stay in team 2 while leaving the player list |
| `MatchService.DateTimeInjective` | src/modules/match/match.service.ts:39 | the `${date}T${time}:00.000Z` text determines its date and time whenever the date holds no 'T' |
| `MatchService.InitialStatus` | src/modules/match/match.service.ts:31-32 | the status is CLOSED exactly when the two rosters hold 4 entries together, and PENDING otherwise |
| `MatchService.CreatedMatch` | src/modules/match/match.service.ts:37-60 | the written match takes the request's fields, the `${date}T${time}:00.000Z` timestamp, the creator, the derived status, the two composed teams (team 2's guests numbered after team 1's) and both teams as its players |
| `MatchService.Guests` | src/modules/match/match.service.ts:34-35 | the guest rows cover exactly the new ids and have no linked user |
| `MatchService.CreatedMatchRoster` | src/modules/match/match.service.ts:31-59 | a created match has a consistent roster with one player per entry; it is CLOSED exactly when it holds 4 players and PENDING otherwise |
| `MatchService.AddGuests` | src/modules/match/match.service.ts:34-35 | one guest row with no user is stored per id from the player counter up to `last`, the counter moves there, and nothing else changes |
| `MatchService.CreateMatch` | src/modules/match/match.service.ts:17-65 | a repeated registered player fails with PLAYER_ALREADY_IN_MATCH and changes nothing; otherwise both rosters' guests are stored first, and the match is written exactly when the creator and every named player then exist, else NotFound with the guests kept and no match; a written match gets the next match id, the counter moves past it, applications are untouched; when every named player existed before the call the match is consistent with one player per entry and CLOSED exactly at 4 players |
| `MatchService.DeleteMatch` | src/modules/match/match.service.ts:199-212 | any existing match becomes CANCELLED whatever its status; a missing one fails with NotFound; nothing else changes |
| `MatchService.ChangeState` | src/modules/match/match.service.ts:263-276 | the match takes the given status with no check of the current one; nothing else changes |
| `MatchService.AddPlayerToMatch` | src/modules/match/match.service.ts:214-261 | errors in order: NO_MATCH, PLAYER_ALREADY_IN_MATCH, APPLICATION_TEAM_FULL (target team exists with 2 or more players), then NotFound exactly when the player is unknown or no team has the number; on success the player joins the match and the target team only, that team has at most 2 players, the status is not recomputed, and other matches are unchanged |
| `MatchService.ApplyScalars` | src/modules/match/match.service.ts:279-296 | each scalar field changes only when supplied; the timestamp changes only when both date and time are non-empty; status, creator and rosters are untouched |
| `MatchService.ReplaceTeams` | src/modules/match/match.service.ts:341 | a sent team 1 becomes createTeam's composition from the player counter, a sent team 2 the composition numbered after team 1's guests; a team not sent keeps its players; the match's player list becomes both teams; every other field is untouched |
| `MatchService.ResolvedGender` | src/modules/match/match.service.ts:299-306 | the gender id used for the teams is the request's when truthy or when no teams are sent, and the stored match's when teams are sent without a truthy one |
| `MatchService.ReplacedTeamsConsistent` | src/modules/match/match.service.ts:330-341 | when both rosters are sent and pass the duplicate test, the replaced teams are disjoint and hold one player per entry |
| `MatchService.WriteTeams` | src/modules/match/match.service.ts:341 | updateTeams stores the new rosters' guests, moves the player counter past them and writes the replaced teams into the match; nothing else changes |
| `MatchService.UpdateMatch` | src/modules/match/match.service.ts:278-366 | a missing match fails with NotFound; the scalar write always happens first; teams are replaced only when teams are sent and a truthy gender id resolves, from the request or else from the stored match; a repeated player then fails with PLAYER_ALREADY_IN_MATCH after the scalar write has been kept |
| `MatchService.DeletePlayerFromMatch` | src/modules/match/match.service.ts:368-445 | errors in order: NO_MATCH, UNAUTHORIZED (player in no team), NO_PLAYER; on success the player leaves the match and the team that held them; the player record is deleted exactly when it has no user; the match ends PENDING whatever its status was; the returned match still carries the old status |
| `MatchService.PlayerMatchesCount` | src/modules/match/match.service.ts:447-468 | the count of COMPLETED matches listing the player is at most the number of matches, and it is 0 if and only if no COMPLETED match lists the player |
| `MatchService.NoneCompletedWith` | src/modules/match/match.service.ts:447-468 | the set of COMPLETED matches listing the player is empty if and only if every match listing the player has another status |
| `MatchService.CompletingRaisesCount` | src/modules/match/match.service.ts:263-276 | setting a non-COMPLETED match to COMPLETED, the write changeState makes, raises a player's count of completed matches by exactly one when the match lists the player and leaves it unchanged otherwise |
| `ApplicationService.HasAppliedIgnoresStatus` | src/modules/application/application.service.ts:28-31 | the existing-application search ignores status: deciding any stored application, whichever way, neither hides it from the search nor makes another one appear |
| `ApplicationService.ApplyToMatch` | src/modules/application/application.service.ts:10-56 | errors in order: NO_MATCH, APPLICATION_ALREADY_EXISTS (any stored application of this player on this match, whatever its status), APPLICATION_TEAM_FULL (only for a truthy requested team that exists with 2 or more players); on success exactly one new PENDING application (the schema default, see Left out) with the given team number, message and phone is stored; matches and players are unchanged |
| `ApplicationService.ReviewCheck` | src/modules/application/application.service.ts:73-79 | APPLICATION_NO_EXIST for a missing application; then UNAUTHORIZED when its match is missing or the actor did not create it; then APPLICATION_CLOSED when it is no longer PENDING; then APPLICATION_MATCH_CLOSED when the match is not PENDING; the guards pass exactly when none of these holds |
| `ApplicationService.DecisionIsFinal` | src/modules/application/application.service.ts:76-77 | an accepted or rejected application reviewed by its match's creator fails with APPLICATION_CLOSED |
| `ApplicationService.AcceptCheck` | src/modules/application/application.service.ts:73-83 | after the shared review: TypeError when no team has the application's number, then APPLICATION_TEAM_FULL; past those, accept passes exactly when the applicant exists and the creator's team number is 1 or 2, and fails with NotFound otherwise |
| `ApplicationService.AcceptApplication` | src/modules/application/application.service.ts:58-85 | after the four shared guards: TypeError when no team has the application's number, then APPLICATION_TEAM_FULL; on success the applicant joins the match and the team given as argument, the application becomes ACCEPTED, and nothing else changes |
| `ApplicationService.RejectApplication` | src/modules/application/application.service.ts:87-110 | the same four guards in the same order, then the application becomes REJECTED; teams, players and match status are untouched |
| `ApplicationService.ApplyTwice` | src/modules/application/application.service.ts:28-31 | after a successful application, and after the creator tries to reject it, a second application by the same player to the same match fails with APPLICATION_ALREADY_EXISTS |
| `ApplicationService.DecideTwice` | src/modules/application/application.service.ts:104-105 | after a successful accept or reject, a further accept and a further reject by the creator both fail with APPLICATION_CLOSED |
| `ApplicationService.AcceptCanOverfillTeam` | src/modules/application/application.service.ts:80-83 | there is a state in which all accept guards pass and the argument team ends with 3 players |
| `ApplicationService.AcceptCanDuplicatePlayer` | src/modules/application/application.service.ts:26-31 | there is a consistent match in which an applicant already in team 1 passes every accept guard and ends in both teams |
| `Store.Db.constructor` | src/modules/match/match.service.ts:2 | the store stands for the database client imported at this line; it starts with empty tables, and each table's counter, which stands for the database's autoincrement id, starts at 1, so every stored id is below its table's counter |

## Left out

- getOpenMatches, getMyMatches and getMatchById are query construction for the database: filters, pagination, include projections and transactions. getMatchById is modelled only as a lookup in the matches map.
- Foreign keys other than players are not modelled: category, gender and status rows.
- Guest players carry no gender, because createTeam's use of `genderId` is not part of this model. In updateMatch the resolved gender id only decides whether the teams are updated.
- DeletePlayerFromMatch: deleting a guest record is modelled as removing the row. What the database does when that guest is still referenced by another match or an application is not modelled.
- DeletePlayerFromMatch: the second UNAUTHORIZED guard (no team found holding the player) cannot fail once the first has passed, so it has no separate case.
- CreateMatch: the source of createTeam is not part of this model. It is assumed to store the guest players itself, because their ids are connected to the match at match.service.ts:55; so a createMatch that fails at the match write keeps them. A request that names an unknown player id equal to the id a new guest takes connects that guest.
- UpdateMatch: the source of updateTeams is not part of this model. Its write is modelled as one step (guests and teams together) that a missing named player refuses as a whole.
- The teams of a match are assumed to be listed team 1 then team 2 when the source searches them with `find`.
- ApplyToMatch: applyToMatch writes no status. A new application is assumed to take the database schema's default, PENDING, because the schema is not part of this model.
- Concurrency is not modelled: the read-check-write races between simultaneous accepts or roster edits. The model runs one operation at a time.
- Player notification, gender validation and the ban on a creator applying to their own match are not implemented in the source, so they are not modelled.
- The HTTP layer, authentication and the routers are not modelled.
