/** The `/api/test` controller's team creation: a required-field check, the
    same reference resolution as `/api`, and every failure wrapped in one
    runtime exception. */
module TestApi {
  import opened Base
  import opened Dto
  import opened EntityMapper
  import opened Persistence
  import DatabaseView

  const MissingFields := RuntimeFailure(IllegalArgument(MissingRequiredField))

  /** `POST /api/test/team`. */
  function CreateTeam(s: Store, req: TeamRequest): (r: Reply<TeamResponse>)
    ensures req.teamName.None? || req.yearCreated.None? ==> r == Reply(Err(MissingFields), s)
    ensures r.body.Err? <==>
              req.teamName.None? || req.yearCreated.None?
              || !RowResolves(s, DatabaseView.RequestedRow(req))
    ensures r.body.Err? ==> r.after == s && r.body.error.RuntimeFailure?
    ensures req.teamName.Some? && req.yearCreated.Some? && !Resolves(req.coachId, s.coaches.rows) ==>
              r.body == Err(RuntimeFailure(IllegalArgument(CoachNotFound(req.coachId.value))))
    ensures req.teamName.Some? && req.yearCreated.Some? && Resolves(req.coachId, s.coaches.rows)
            && !Resolves(req.playerId, s.players.rows) ==>
              r.body == Err(RuntimeFailure(IllegalArgument(PlayerNotFound(req.playerId.value))))
    ensures r.body.Ok? ==>
              && r.after.players == s.players && r.after.coaches == s.coaches
              && r.body.value.teamId == Some(s.teams.next)
              && r.body.value.teamName == req.teamName && r.body.value.teamName.Some?
              && r.body.value.yearCreated == req.yearCreated && r.body.value.yearCreated.Some?
              && (r.body.value.coach.Some? <==> req.coachId.Some?)
              && (r.body.value.player.Some? <==> req.playerId.Some?)
    ensures Valid(s) && r.body.Ok? ==>
              && s.teams.next !in s.teams.rows
              && r.after.teams.rows == s.teams.rows[s.teams.next := DatabaseView.RequestedRow(req)]
    ensures Valid(s) ==> Valid(r.after)
  {
    if req.teamName.None? || req.yearCreated.None? then Reply(Err(MissingFields), s)
    else
      var team := TeamToEntity(req);
      var resolved := DatabaseView.ResolveReferences(s, req, team);
      if resolved.Err? then Reply(Err(RuntimeFailure(resolved.error)), s)
      else
        var saved := SaveTeam(s, resolved.value);
        DatabaseView.ResolvedRowIsRequested(s, req, team);
        Reply(Ok(TeamToDto(saved.entity)), saved.store)
  }

  /** Once the required fields are present, the test endpoint behaves like
      `POST /api/teams`, except that its failures arrive wrapped. */
  lemma AgreesWithDatabaseView(s: Store, req: TeamRequest)
    requires req.teamName.Some? && req.yearCreated.Some?
    ensures CreateTeam(s, req).after == DatabaseView.CreateTeam(s, req).after
    ensures DatabaseView.CreateTeam(s, req).body.Ok? ==>
              CreateTeam(s, req).body == DatabaseView.CreateTeam(s, req).body
    ensures DatabaseView.CreateTeam(s, req).body.Err? ==>
              CreateTeam(s, req).body == Err(RuntimeFailure(DatabaseView.CreateTeam(s, req).body.error))
  {
  }
}
