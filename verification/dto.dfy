/** Request and response bodies of the REST endpoints. */
module Dto {
  import opened Base
  import opened Model

  datatype PlayerRequest = PlayerRequest(
    name: string,
    surname: string,
    dateOfBirth: Date,
    personalCode: string)

  datatype PlayerResponse = PlayerResponse(
    id: Option<int>,
    name: string,
    surname: string,
    dateOfBirth: Date,
    personalCode: string)

  datatype CoachRequest = CoachRequest(
    name: string,
    surname: string,
    coachingFrom: Date,
    licenseId: string,
    personalCode: string)

  datatype CoachResponse = CoachResponse(
    id: Option<int>,
    name: string,
    surname: string,
    coachingFrom: Date,
    licenseId: string,
    personalCode: string)

  /** Every field may be absent (null in the JSON body). */
  datatype TeamRequest = TeamRequest(
    coachId: Option<int>,
    playerId: Option<int>,
    teamName: Option<string>,
    yearCreated: Option<int>)

  /** The coach and the player are embedded as their own response bodies. */
  datatype TeamResponse = TeamResponse(
    teamId: Option<int>,
    coach: Option<CoachResponse>,
    player: Option<PlayerResponse>,
    teamName: Option<string>,
    yearCreated: Option<int>)
}
