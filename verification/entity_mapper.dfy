/** Field-by-field conversions between request/response bodies and entities. */
module EntityMapper {
  import opened Base
  import opened Model
  import opened Dto

  /** A new, unsaved player carrying the request's four fields. */
  function PlayerToEntity(dto: PlayerRequest): (p: Player)
    ensures p.id == None
    ensures p.name == dto.name && p.surname == dto.surname
    ensures p.dateOfBirth == dto.dateOfBirth && p.personalCode == dto.personalCode
  {
    Player(None, dto.name, dto.surname, dto.dateOfBirth, dto.personalCode)
  }

  function PlayerToDto(entity: Player): (r: PlayerResponse)
    ensures r.id == entity.id
    ensures r.name == entity.name && r.surname == entity.surname
    ensures r.dateOfBirth == entity.dateOfBirth && r.personalCode == entity.personalCode
  {
    PlayerResponse(entity.id, entity.name, entity.surname, entity.dateOfBirth, entity.personalCode)
  }

  /** A request saved under id `id` reads back as that id and the request's fields. */
  lemma PlayerRoundTrip(dto: PlayerRequest, id: int)
    ensures PlayerToDto(PlayerToEntity(dto).(id := Some(id)))
         == PlayerResponse(Some(id), dto.name, dto.surname, dto.dateOfBirth, dto.personalCode)
  {
  }

  /** The response loses nothing: distinct players give distinct responses. */
  lemma PlayerToDtoInjective(a: Player, b: Player)
    ensures PlayerToDto(a) == PlayerToDto(b) ==> a == b
  {
  }

  /** A new, unsaved coach carrying the request's five fields. */
  function CoachToEntity(dto: CoachRequest): (c: Coach)
    ensures c.id == None
    ensures c.name == dto.name && c.surname == dto.surname
    ensures c.coachingFrom == dto.coachingFrom
    ensures c.licenseId == dto.licenseId && c.personalCode == dto.personalCode
  {
    Coach(None, dto.name, dto.surname, dto.coachingFrom, dto.licenseId, dto.personalCode)
  }

  function CoachToDto(entity: Coach): (r: CoachResponse)
    ensures r.id == entity.id
    ensures r.name == entity.name && r.surname == entity.surname
    ensures r.coachingFrom == entity.coachingFrom
    ensures r.licenseId == entity.licenseId && r.personalCode == entity.personalCode
  {
    CoachResponse(entity.id, entity.name, entity.surname, entity.coachingFrom,
                  entity.licenseId, entity.personalCode)
  }

  lemma CoachRoundTrip(dto: CoachRequest, id: int)
    ensures CoachToDto(CoachToEntity(dto).(id := Some(id)))
         == CoachResponse(Some(id), dto.name, dto.surname, dto.coachingFrom,
                          dto.licenseId, dto.personalCode)
  {
  }

  lemma CoachToDtoInjective(a: Coach, b: Coach)
    ensures CoachToDto(a) == CoachToDto(b) ==> a == b
  {
  }

  /** Only the name and the year are taken from the request; the coach and
      player ids are resolved by the controller, not here. */
  function TeamToEntity(dto: TeamRequest): (t: Team)
    ensures t.teamId == None && t.coach == None && t.player == None
    ensures t.teamName == dto.teamName && t.yearCreated == dto.yearCreated
  {
    Team(None, None, None, dto.teamName, dto.yearCreated)
  }

  /** Whatever coach and player ids a request holds, the entity is the same. */
  lemma TeamToEntityIgnoresReferences(dto: TeamRequest, coachId: Option<int>, playerId: Option<int>)
    ensures TeamToEntity(dto.(coachId := coachId, playerId := playerId)) == TeamToEntity(dto)
  {
  }

  /** The team's own fields are copied; a present coach or player is embedded
      as its own response, an absent one stays absent. */
  function TeamToDto(entity: Team): (r: TeamResponse)
    ensures r.teamId == entity.teamId
    ensures r.teamName == entity.teamName && r.yearCreated == entity.yearCreated
    ensures r.coach.Some? <==> entity.coach.Some?
    ensures r.coach.Some? ==> r.coach.value == CoachToDto(entity.coach.value)
    ensures r.player.Some? <==> entity.player.Some?
    ensures r.player.Some? ==> r.player.value == PlayerToDto(entity.player.value)
  {
    var coach := if entity.coach.Some? then Some(CoachToDto(entity.coach.value)) else None;
    var player := if entity.player.Some? then Some(PlayerToDto(entity.player.value)) else None;
    TeamResponse(entity.teamId, coach, player, entity.teamName, entity.yearCreated)
  }

  lemma TeamToDtoInjective(a: Team, b: Team)
    ensures TeamToDto(a) == TeamToDto(b) ==> a == b
  {
    if TeamToDto(a) == TeamToDto(b) {
      if a.coach.Some? {
        CoachToDtoInjective(a.coach.value, b.coach.value);
      }
      if a.player.Some? {
        PlayerToDtoInjective(a.player.value, b.player.value);
      }
    }
  }
}
