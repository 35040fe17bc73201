/** The database both services read and write, as one object whose tables the services update in place. */
module Store {
  import opened Common
  import opened Domain

  /** One map per table. Ids are handed out by the database from a counter per table
      (autoincrement), so a new row never reuses an id, even after a delete. */
  class Db {
    var matches: map<MatchId, Match>
    var applications: map<ApplicationId, Application>
    var players: map<PlayerId, Player>
    var nextMatchId: MatchId
    var nextApplicationId: ApplicationId
    var nextPlayerId: PlayerId

    /** Every stored id is below its table's counter. */
    ghost predicate Valid()
      reads this
    {
      && (forall id :: id in matches ==> id < nextMatchId)
      && (forall id :: id in applications ==> id < nextApplicationId)
      && (forall id :: id in players ==> id < nextPlayerId)
    }

    /** An empty database whose counters start at 1. */
    constructor ()
      ensures Valid()
      ensures matches == map[] && applications == map[] && players == map[]
      ensures nextMatchId == 1 && nextApplicationId == 1 && nextPlayerId == 1
    {
      matches, applications, players := map[], map[], map[];
      nextMatchId, nextApplicationId, nextPlayerId := 1, 1, 1;
    }
  }
}
