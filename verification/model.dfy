/** The persisted entities. Ids are `None` until the store assigns one. */
module Model {
  import opened Base

  /** `java.time.LocalDate`, kept opaque: only equality of dates is observed. */
  datatype Date = Date(epochDay: int)

  datatype Player = Player(
    id: Option<int>,
    name: string,
    surname: string,
    dateOfBirth: Date,
    personalCode: string)

  datatype Coach = Coach(
    id: Option<int>,
    name: string,
    surname: string,
    coachingFrom: Date,
    licenseId: string,
    personalCode: string)

  /** A team as the application sees it: the coach and the player are the
      referenced entities themselves, each optional. In this revision a team
      refers to at most one player. */
  datatype Team = Team(
    teamId: Option<int>,
    coach: Option<Coach>,
    player: Option<Player>,
    teamName: Option<string>,
    yearCreated: Option<int>)
}
