/** Referential integrity over any sequence of writes: starting from an
    empty database, no team ever refers to a missing player or coach. */
module Integrity {
  import opened Dto
  import opened Persistence
  import DatabaseView
  import TestApi

  /** Every call that writes to the store. Reads never change it. */
  datatype Command =
    | CreatePlayer(playerRequest: PlayerRequest)
    | UpdatePlayer(playerId: int, playerRequest: PlayerRequest)
    | DeletePlayer(playerId: int)
    | CreateCoach(coachRequest: CoachRequest)
    | UpdateCoach(coachId: int, coachRequest: CoachRequest)
    | DeleteCoach(coachId: int)
    | CreateTeam(teamRequest: TeamRequest)
    | UpdateTeam(teamId: int, teamRequest: TeamRequest)
    | DeleteTeam(teamId: int)
    | TestCreateTeam(teamRequest: TeamRequest)

  /** The store after one call, whether it succeeded or failed. */
  function Step(s: Store, c: Command): (t: Store)
    ensures Valid(s) ==> Valid(t)
  {
    match c
    case CreatePlayer(req) => DatabaseView.CreatePlayer(s, req).after
    case UpdatePlayer(id, req) => DatabaseView.UpdatePlayer(s, id, req).after
    case DeletePlayer(id) => DatabaseView.DeletePlayer(s, id).after
    case CreateCoach(req) => DatabaseView.CreateCoach(s, req).after
    case UpdateCoach(id, req) => DatabaseView.UpdateCoach(s, id, req).after
    case DeleteCoach(id) => DatabaseView.DeleteCoach(s, id).after
    case CreateTeam(req) => DatabaseView.CreateTeam(s, req).after
    case UpdateTeam(id, req) => DatabaseView.UpdateTeam(s, id, req).after
    case DeleteTeam(id) => DatabaseView.DeleteTeam(s, id).after
    case TestCreateTeam(req) => TestApi.CreateTeam(s, req).after
  }

  /** The store after a sequence of calls, one after another. */
  function Run(s: Store, cs: seq<Command>): (t: Store)
    ensures Valid(s) ==> Valid(t)
    decreases |cs|
  {
    if |cs| == 0 then s else Run(Step(s, cs[0]), cs[1..])
  }

  /** Whatever calls are made, every team's coach and player exist. */
  lemma ReachableStoresKeepReferences(cs: seq<Command>)
    ensures ReferencesExist(Run(Empty, cs))
  {
    EmptyValid();
  }
}
