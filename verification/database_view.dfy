/** The `/api` controller: filtered listings, lookups, create/update, and
    deletes that scrub team references before removing a player or coach. */
module DatabaseView {
  import opened Base
  import opened Strings
  import opened Seqs
  import opened Model
  import opened Dto
  import opened EntityMapper
  import opened Repository
  import opened Persistence

  // ---------------------------------------------------------------- filters

  /** A name-like filter: unset, or a case-insensitive substring of the field. */
  predicate LikeFilter(field: string, filter: Option<string>)
  {
    filter.None? || Contains(Lower(field), Lower(filter.value))
  }

  /** A code filter: unset, or equal to the field. */
  predicate ExactFilter(field: string, filter: Option<string>)
  {
    filter.None? || field == filter.value
  }

  /** A set name filter matches exactly when the lower-cased filter occurs
      somewhere in the lower-cased field. */
  lemma LikeFilterIff(field: string, q: string)
    ensures LikeFilter(field, Some(q)) <==> exists i :: OccursAt(Lower(field), Lower(q), i)
  {
    ContainsIff(Lower(field), Lower(q));
  }

  /** Case does not matter on either side of a name filter. */
  lemma LikeFilterIgnoresCase(field: string, q: string)
    ensures LikeFilter(field, Some(q)) == LikeFilter(field, Some(Lower(q)))
    ensures LikeFilter(field, Some(q)) == LikeFilter(Lower(field), Some(q))
  {
    LowerIdempotent(q);
    LowerIdempotent(field);
  }

  /** An empty name filter accepts every field, as an unset one does; an
      empty code filter accepts only the empty code. */
  lemma EmptyFilters(field: string)
    ensures LikeFilter(field, Some(""))
    ensures ExactFilter(field, Some("")) <==> field == ""
  {
    assert Lower("") == "";
    ContainsEmpty(Lower(field));
  }

  // ---------------------------------------------------------------- players

  datatype PlayerFilter = PlayerFilter(
    name: Option<string>,
    surname: Option<string>,
    personalCode: Option<string>)

  const NoPlayerFilter := PlayerFilter(None, None, None)

  /** A player passes when it satisfies every filter that is set. */
  predicate PlayerMatches(f: PlayerFilter, p: Player)
  {
    LikeFilter(p.name, f.name) && LikeFilter(p.surname, f.surname)
    && ExactFilter(p.personalCode, f.personalCode)
  }

  /** The player filter as the predicate a stream filter takes. */
  function PlayerTest(f: PlayerFilter): Player -> bool
  {
    p => PlayerMatches(f, p)
  }

  /** The three chained `filter` steps of the player listing select what
      their conjunction selects. */
  function FilterPlayers(all: seq<Player>, f: PlayerFilter): (r: seq<Player>)
    ensures r == Filter(all, PlayerTest(f))
  {
    var byName := (p: Player) => LikeFilter(p.name, f.name);
    var bySurname := (p: Player) => LikeFilter(p.surname, f.surname);
    var byCode := (p: Player) => ExactFilter(p.personalCode, f.personalCode);
    FilterChain3(all, byName, bySurname, byCode, PlayerTest(f));
    Filter(Filter(Filter(all, byName), bySurname), byCode)
  }

  /** The responses for the players of `all` that pass the filters, in the
      order of `all`. */
  function ListPlayers(all: seq<Player>, f: PlayerFilter): (r: seq<PlayerResponse>)
    ensures var kept := Filter(all, PlayerTest(f));
            |r| == |kept| && forall i :: 0 <= i < |r| ==> r[i] == PlayerToDto(kept[i])
  {
    var kept := FilterPlayers(all, f);
    seq(|kept|, i requires 0 <= i < |kept| => PlayerToDto(kept[i]))
  }

  /** A player's response is listed exactly when the player is in `all` and
      passes every set filter. */
  lemma PlayersListed(all: seq<Player>, f: PlayerFilter)
    ensures forall p :: PlayerToDto(p) in ListPlayers(all, f) <==> p in all && PlayerMatches(f, p)
  {
    var kept := Filter(all, PlayerTest(f));
    var r := ListPlayers(all, f);
    forall p
      ensures PlayerToDto(p) in r <==> p in all && PlayerMatches(f, p)
    {
      if PlayerToDto(p) in r {
        var i :| 0 <= i < |r| && r[i] == PlayerToDto(p);
        PlayerToDtoInjective(kept[i], p);
        assert kept[i] in kept;
      }
      if p in all && PlayerMatches(f, p) {
        assert p in kept;
        var i :| 0 <= i < |kept| && kept[i] == p;
        assert r[i] == PlayerToDto(p);
      }
    }
  }

  /** `GET /players`: a stored player is listed exactly when it passes every
      set filter. */
  function GetAllPlayers(s: Store, f: PlayerFilter): (r: seq<PlayerResponse>)
    ensures forall p :: PlayerToDto(p) in r <==> p in s.players.rows.Values && PlayerMatches(f, p)
  {
    PlayersListed(s.players.FindAll(), f);
    ListPlayers(s.players.FindAll(), f)
  }

  /** With no filter set, every player of `all` is listed, in order. */
  lemma UnfilteredPlayers(all: seq<Player>)
    ensures var r := ListPlayers(all, NoPlayerFilter);
            |r| == |all| && forall i :: 0 <= i < |r| ==> r[i] == PlayerToDto(all[i])
  {
    FilterKeepsAll(all, PlayerTest(NoPlayerFilter));
  }

  /** In a valid store the listing comes out in ascending id order. */
  lemma PlayersListedInIdOrder(s: Store, f: PlayerFilter)
    requires Valid(s)
    ensures var r := GetAllPlayers(s, f);
            forall i, j :: 0 <= i < j < |r| ==> r[i].id.Some? && r[j].id.Some? && r[i].id.value < r[j].id.value
  {
    StoredPlayersInIdOrder(s);
    ListedInIdOrder(s.players.FindAll(), f);
  }

  /** Filtering a listing of players sorted by id keeps it sorted by id. */
  lemma ListedInIdOrder(all: seq<Player>, f: PlayerFilter)
    requires forall p :: p in all ==> p.id.Some?
    requires forall i, j :: 0 <= i < j < |all| ==> IdOrZero(all[i]) < IdOrZero(all[j])
    ensures var r := ListPlayers(all, f);
            forall i, j :: 0 <= i < j < |r| ==> r[i].id.Some? && r[j].id.Some? && r[i].id.value < r[j].id.value
  {
    var kept := Filter(all, PlayerTest(f));
    FilterKeepsOrder(all, PlayerTest(f));
    SubsequenceIncreasing(kept, all, IdOrZero);
    var r := ListPlayers(all, f);
    forall i, j | 0 <= i < j < |r|
      ensures r[i].id.Some? && r[j].id.Some? && r[i].id.value < r[j].id.value
    {
      assert kept[i] in all && kept[j] in all;
      assert r[i].id == kept[i].id && r[j].id == kept[j].id;
      assert IdOrZero(kept[i]) < IdOrZero(kept[j]);
    }
  }

  /** The sort key of a stored player: its id. */
  function IdOrZero(p: Player): int
  {
    if p.id.Some? then p.id.value else 0
  }

  /** In a valid store, `findAll` lists players with ids, by increasing id. */
  lemma StoredPlayersInIdOrder(s: Store)
    requires Valid(s)
    ensures var all := s.players.FindAll();
            && (forall p :: p in all ==> p.id.Some?)
            && forall i, j :: 0 <= i < j < |all| ==> IdOrZero(all[i]) < IdOrZero(all[j])
  {
    var all := s.players.FindAll();
    var ids := s.players.Ids();
    forall i | 0 <= i < |all|
      ensures all[i].id == Some(ids[i])
    {
      assert ids[i] in ids;
    }
  }

  /** A subsequence of a sequence whose keys increase has increasing keys. */
  lemma {:induction false} SubsequenceIncreasing<T>(sub: seq<T>, xs: seq<T>, key: T -> int)
    requires IsSubsequence(sub, xs)
    requires forall i, j :: 0 <= i < j < |xs| ==> key(xs[i]) < key(xs[j])
    ensures forall i, j :: 0 <= i < j < |sub| ==> key(sub[i]) < key(sub[j])
    ensures forall i :: 0 <= i < |sub| ==> sub[i] in xs
    decreases |xs|
  {
    if |sub| > 0 {
      assert |xs| > 0;
      if sub[0] == xs[0] && IsSubsequence(sub[1..], xs[1..]) {
        SubsequenceIncreasing(sub[1..], xs[1..], key);
        forall j | 0 < j < |sub|
          ensures key(sub[0]) < key(sub[j])
        {
          assert sub[1..][j - 1] in xs[1..];
          var k :| 0 <= k < |xs[1..]| && xs[1..][k] == sub[j];
          assert xs[k + 1] == sub[j];
        }
        forall i | 0 <= i < |sub|
          ensures sub[i] in xs
        {
          if i > 0 {
            assert sub[1..][i - 1] in xs[1..];
          }
        }
      } else {
        SubsequenceIncreasing(sub, xs[1..], key);
        forall i | 0 <= i < |sub|
          ensures sub[i] in xs
        {
          assert sub[i] in xs[1..];
        }
      }
    }
  }

  /** `POST /players`: a new player under the next identity value. */
  function CreatePlayer(s: Store, req: PlayerRequest): (r: Reply<PlayerResponse>)
    ensures r.body == Ok(PlayerResponse(Some(s.players.next), req.name, req.surname,
                                        req.dateOfBirth, req.personalCode))
    ensures r.after.players.rows
         == s.players.rows[s.players.next := Player(Some(s.players.next), req.name, req.surname,
                                                    req.dateOfBirth, req.personalCode)]
    ensures r.after.coaches == s.coaches && r.after.teams == s.teams
    ensures Valid(s) ==> Valid(r.after) && s.players.next !in s.players.rows
  {
    var saved := SavePlayer(s, PlayerToEntity(req));
    Reply(Ok(PlayerToDto(saved.entity)), saved.store)
  }

  /** `GET /players/{id}`: the player's response, or nothing (`null`). */
  function GetPlayer(s: Store, id: int): (r: Option<PlayerResponse>)
    ensures r.Some? <==> id in s.players.rows
    ensures r.Some? ==> r.value == PlayerToDto(s.players.rows[id])
    ensures Valid(s) && r.Some? ==> r.value.id == Some(id)
  {
    if s.players.FindById(id).Some? then Some(PlayerToDto(s.players.FindById(id).value)) else None
  }

  /** A created player reads back with a newly assigned id and the request's fields. */
  lemma CreateThenGetPlayer(s: Store, req: PlayerRequest)
    requires Valid(s)
    ensures var r := CreatePlayer(s, req);
            && r.body.Ok? && r.body.value.id.Some?
            && r.body.value.id.value !in s.players.rows
            && GetPlayer(r.after, r.body.value.id.value) == Some(r.body.value)
            && r.body.value == PlayerToDto(PlayerToEntity(req).(id := r.body.value.id))
  {
  }

  /** `PUT /players/{id}`: the row at `id` is replaced by the request's fields
      (created if absent). */
  function UpdatePlayer(s: Store, id: int, req: PlayerRequest): (r: Reply<PlayerResponse>)
    ensures r.body == Ok(PlayerResponse(Some(id), req.name, req.surname, req.dateOfBirth, req.personalCode))
    ensures r.after.players.rows
         == s.players.rows[id := Player(Some(id), req.name, req.surname, req.dateOfBirth, req.personalCode)]
    ensures r.after.coaches == s.coaches && r.after.teams == s.teams
    ensures Valid(s) ==> Valid(r.after)
  {
    var saved := SavePlayer(s, PlayerToEntity(req).(id := Some(id)));
    Reply(Ok(PlayerToDto(saved.entity)), saved.store)
  }

  /** Clear the player reference of every team row that points at `id`. */
  function ScrubPlayer(teams: Table<TeamRow>, id: int): (t: Table<TeamRow>)
    ensures t.next == teams.next && t.rows.Keys == teams.rows.Keys
    ensures forall k :: k in t.rows ==> t.rows[k].playerId != Some(id)
    ensures forall k :: k in teams.rows && teams.rows[k].playerId != Some(id) ==> t.rows[k] == teams.rows[k]
    ensures forall k :: k in teams.rows && teams.rows[k].playerId == Some(id) ==>
              t.rows[k] == teams.rows[k].(playerId := None)
  {
    Table(map k | k in teams.rows ::
            if teams.rows[k].playerId == Some(id) then teams.rows[k].(playerId := None) else teams.rows[k],
          teams.next)
  }

  /** `DELETE /players/{id}`: 404 for an unknown id; otherwise every team
      that references the player loses that reference, then the player goes. */
  function DeletePlayer(s: Store, id: int): (r: Reply<()>)
    ensures id !in s.players.rows ==> r.body == Err(NotFound) && r.after == s
    ensures id in s.players.rows ==> r.body == Ok(())
    ensures id !in r.after.players.rows
    ensures forall k :: k in r.after.players.rows <==> k in s.players.rows && k != id
    ensures forall k :: k in r.after.players.rows ==> r.after.players.rows[k] == s.players.rows[k]
    ensures r.after.players.next == s.players.next && r.after.coaches == s.coaches
    ensures r.after.teams.next == s.teams.next && r.after.teams.rows.Keys == s.teams.rows.Keys
    ensures Valid(s) || id in s.players.rows ==>
              forall k :: k in r.after.teams.rows ==> r.after.teams.rows[k].playerId != Some(id)
    ensures forall k :: k in s.teams.rows && s.teams.rows[k].playerId != Some(id) ==>
              r.after.teams.rows[k] == s.teams.rows[k]
    ensures id in s.players.rows ==>
              forall k :: k in s.teams.rows && s.teams.rows[k].playerId == Some(id) ==>
              var row := r.after.teams.rows[k];
              row.coachId == s.teams.rows[k].coachId && row.teamName == s.teams.rows[k].teamName
              && row.yearCreated == s.teams.rows[k].yearCreated && row.playerId == None
    ensures Valid(s) ==> Valid(r.after)
  {
    if !s.players.ExistsById(id) then Reply(Err(NotFound), s)
    else
      var teams := ScrubPlayer(s.teams, id);
      Reply(Ok(()), s.(teams := teams, players := s.players.DeleteById(id)))
  }

  /** Deleting twice: the second call answers 404 and changes nothing. */
  lemma DeletePlayerTwice(s: Store, id: int)
    ensures var once := DeletePlayer(s, id).after;
            DeletePlayer(once, id) == Reply(Err(NotFound), once)
  {
  }

  // ---------------------------------------------------------------- coaches

  datatype CoachFilter = CoachFilter(
    name: Option<string>,
    surname: Option<string>,
    licenseId: Option<string>,
    personalCode: Option<string>)

  const NoCoachFilter := CoachFilter(None, None, None, None)

  predicate CoachMatches(f: CoachFilter, c: Coach)
  {
    LikeFilter(c.name, f.name) && LikeFilter(c.surname, f.surname)
    && ExactFilter(c.licenseId, f.licenseId) && ExactFilter(c.personalCode, f.personalCode)
  }

  function CoachTest(f: CoachFilter): Coach -> bool
  {
    c => CoachMatches(f, c)
  }

  /** The four chained `filter` steps of the coach listing select what their
      conjunction selects. */
  function FilterCoaches(all: seq<Coach>, f: CoachFilter): (r: seq<Coach>)
    ensures r == Filter(all, CoachTest(f))
  {
    var byName := (c: Coach) => LikeFilter(c.name, f.name);
    var bySurname := (c: Coach) => LikeFilter(c.surname, f.surname);
    var byLicense := (c: Coach) => ExactFilter(c.licenseId, f.licenseId);
    var byCode := (c: Coach) => ExactFilter(c.personalCode, f.personalCode);
    FilterChain4(all, byName, bySurname, byLicense, byCode, CoachTest(f));
    Filter(Filter(Filter(Filter(all, byName), bySurname), byLicense), byCode)
  }

  /** The responses for the coaches of `all` that pass the filters, in the
      order of `all`. */
  function ListCoaches(all: seq<Coach>, f: CoachFilter): (r: seq<CoachResponse>)
    ensures var kept := Filter(all, CoachTest(f));
            |r| == |kept| && forall i :: 0 <= i < |r| ==> r[i] == CoachToDto(kept[i])
  {
    var kept := FilterCoaches(all, f);
    seq(|kept|, i requires 0 <= i < |kept| => CoachToDto(kept[i]))
  }

  /** A coach's response is listed exactly when the coach is in `all` and
      passes every set filter. */
  lemma CoachesListed(all: seq<Coach>, f: CoachFilter)
    ensures forall c :: CoachToDto(c) in ListCoaches(all, f) <==> c in all && CoachMatches(f, c)
  {
    var kept := Filter(all, CoachTest(f));
    var r := ListCoaches(all, f);
    forall c
      ensures CoachToDto(c) in r <==> c in all && CoachMatches(f, c)
    {
      if CoachToDto(c) in r {
        var i :| 0 <= i < |r| && r[i] == CoachToDto(c);
        CoachToDtoInjective(kept[i], c);
        assert kept[i] in kept;
      }
      if c in all && CoachMatches(f, c) {
        assert c in kept;
        var i :| 0 <= i < |kept| && kept[i] == c;
        assert r[i] == CoachToDto(c);
      }
    }
  }

  /** `GET /coaches`: a stored coach is listed exactly when it passes every
      set filter. */
  function GetAllCoaches(s: Store, f: CoachFilter): (r: seq<CoachResponse>)
    ensures forall c :: CoachToDto(c) in r <==> c in s.coaches.rows.Values && CoachMatches(f, c)
  {
    CoachesListed(s.coaches.FindAll(), f);
    ListCoaches(s.coaches.FindAll(), f)
  }

  /** With no filter set, every coach of `all` is listed, in order. */
  lemma UnfilteredCoaches(all: seq<Coach>)
    ensures var r := ListCoaches(all, NoCoachFilter);
            |r| == |all| && forall i :: 0 <= i < |r| ==> r[i] == CoachToDto(all[i])
  {
    FilterKeepsAll(all, CoachTest(NoCoachFilter));
  }

  /** `POST /coaches`: a new coach under the next identity value. */
  function CreateCoach(s: Store, req: CoachRequest): (r: Reply<CoachResponse>)
    ensures r.body == Ok(CoachResponse(Some(s.coaches.next), req.name, req.surname,
                                       req.coachingFrom, req.licenseId, req.personalCode))
    ensures r.after.coaches.rows
         == s.coaches.rows[s.coaches.next := Coach(Some(s.coaches.next), req.name, req.surname,
                                                   req.coachingFrom, req.licenseId, req.personalCode)]
    ensures r.after.players == s.players && r.after.teams == s.teams
    ensures Valid(s) ==> Valid(r.after) && s.coaches.next !in s.coaches.rows
  {
    var saved := SaveCoach(s, CoachToEntity(req));
    Reply(Ok(CoachToDto(saved.entity)), saved.store)
  }

  function GetCoach(s: Store, id: int): (r: Option<CoachResponse>)
    ensures r.Some? <==> id in s.coaches.rows
    ensures r.Some? ==> r.value == CoachToDto(s.coaches.rows[id])
    ensures Valid(s) && r.Some? ==> r.value.id == Some(id)
  {
    if s.coaches.FindById(id).Some? then Some(CoachToDto(s.coaches.FindById(id).value)) else None
  }

  /** A created coach gets a fresh id and reads back with the request's fields. */
  lemma CreateThenGetCoach(s: Store, req: CoachRequest)
    requires Valid(s)
    ensures var r := CreateCoach(s, req);
            && r.body.Ok? && r.body.value.id.Some?
            && r.body.value.id.value !in s.coaches.rows
            && GetCoach(r.after, r.body.value.id.value) == Some(r.body.value)
            && r.body.value == CoachToDto(CoachToEntity(req).(id := r.body.value.id))
  {
  }

  /** `PUT /coaches/{id}`. */
  function UpdateCoach(s: Store, id: int, req: CoachRequest): (r: Reply<CoachResponse>)
    ensures r.body == Ok(CoachResponse(Some(id), req.name, req.surname, req.coachingFrom,
                                       req.licenseId, req.personalCode))
    ensures r.after.coaches.rows
         == s.coaches.rows[id := Coach(Some(id), req.name, req.surname, req.coachingFrom,
                                       req.licenseId, req.personalCode)]
    ensures r.after.players == s.players && r.after.teams == s.teams
    ensures Valid(s) ==> Valid(r.after)
  {
    var saved := SaveCoach(s, CoachToEntity(req).(id := Some(id)));
    Reply(Ok(CoachToDto(saved.entity)), saved.store)
  }

  /** Clear the coach reference of every team row that points at `id`. */
  function ScrubCoach(teams: Table<TeamRow>, id: int): (t: Table<TeamRow>)
    ensures t.next == teams.next && t.rows.Keys == teams.rows.Keys
    ensures forall k :: k in t.rows ==> t.rows[k].coachId != Some(id)
    ensures forall k :: k in teams.rows && teams.rows[k].coachId != Some(id) ==> t.rows[k] == teams.rows[k]
    ensures forall k :: k in teams.rows && teams.rows[k].coachId == Some(id) ==>
              t.rows[k] == teams.rows[k].(coachId := None)
  {
    Table(map k | k in teams.rows ::
            if teams.rows[k].coachId == Some(id) then teams.rows[k].(coachId := None) else teams.rows[k],
          teams.next)
  }

  /** `DELETE /coaches/{id}`: symmetric to `DeletePlayer`. */
  function DeleteCoach(s: Store, id: int): (r: Reply<()>)
    ensures id !in s.coaches.rows ==> r.body == Err(NotFound) && r.after == s
    ensures id in s.coaches.rows ==> r.body == Ok(())
    ensures id !in r.after.coaches.rows
    ensures forall k :: k in r.after.coaches.rows <==> k in s.coaches.rows && k != id
    ensures forall k :: k in r.after.coaches.rows ==> r.after.coaches.rows[k] == s.coaches.rows[k]
    ensures r.after.coaches.next == s.coaches.next && r.after.players == s.players
    ensures r.after.teams.next == s.teams.next && r.after.teams.rows.Keys == s.teams.rows.Keys
    ensures Valid(s) || id in s.coaches.rows ==>
              forall k :: k in r.after.teams.rows ==> r.after.teams.rows[k].coachId != Some(id)
    ensures forall k :: k in s.teams.rows && s.teams.rows[k].coachId != Some(id) ==>
              r.after.teams.rows[k] == s.teams.rows[k]
    ensures id in s.coaches.rows ==>
              forall k :: k in s.teams.rows && s.teams.rows[k].coachId == Some(id) ==>
              var row := r.after.teams.rows[k];
              row.playerId == s.teams.rows[k].playerId && row.teamName == s.teams.rows[k].teamName
              && row.yearCreated == s.teams.rows[k].yearCreated && row.coachId == None
    ensures Valid(s) ==> Valid(r.after)
  {
    if !s.coaches.ExistsById(id) then Reply(Err(NotFound), s)
    else
      var teams := ScrubCoach(s.teams, id);
      Reply(Ok(()), s.(teams := teams, coaches := s.coaches.DeleteById(id)))
  }

  lemma DeleteCoachTwice(s: Store, id: int)
    ensures var once := DeleteCoach(s, id).after;
            DeleteCoach(once, id) == Reply(Err(NotFound), once)
  {
  }

  // ---------------------------------------------------------------- teams

  datatype TeamFilter = TeamFilter(
    teamName: Option<string>,
    yearCreated: Option<int>,
    coachId: Option<int>,
    playerId: Option<int>)

  const NoTeamFilter := TeamFilter(None, None, None, None)

  /** What the four team filters mean when no field they read is null. */
  predicate TeamMatches(f: TeamFilter, t: Team)
  {
    && (f.teamName.None? || (t.teamName.Some? && LikeFilter(t.teamName.value, f.teamName)))
    && (f.yearCreated.None? || t.yearCreated == f.yearCreated)
    && (f.coachId.None? || (t.coach.Some? && t.coach.value.id == f.coachId))
    && (f.playerId.None? || (t.player.Some? && t.player.value.id == f.playerId))
  }

  function TeamTest(f: TeamFilter): Team -> bool
  {
    t => TeamMatches(f, t)
  }

  /** A set filter that reads a field the team leaves null. */
  predicate HitsNull(f: TeamFilter, t: Team)
  {
    || (f.teamName.Some? && t.teamName.None?)
    || (f.yearCreated.Some? && t.yearCreated.None?)
    || (f.coachId.Some? && t.coach.Some? && t.coach.value.id.None?)
    || (f.playerId.Some? && t.player.Some? && t.player.value.id.None?)
  }

  /** The name filter is unset, or the team's name passes it. */
  predicate NamePasses(f: TeamFilter, t: Team)
  {
    f.teamName.None? || (t.teamName.Some? && LikeFilter(t.teamName.value, f.teamName))
  }

  /** The year filter is unset, or the team's year equals it. */
  predicate YearPasses(f: TeamFilter, t: Team)
  {
    f.yearCreated.None? || t.yearCreated == f.yearCreated
  }

  /** The coach filter is unset, or the team's coach has that id. */
  predicate CoachPasses(f: TeamFilter, t: Team)
  {
    f.coachId.None? || (t.coach.Some? && t.coach.value.id == f.coachId)
  }

  /** The four filters run on one team, in order: a set filter that
      dereferences a null field throws, and a failed filter stops the chain,
      so a later filter's null is only reached when every earlier one passes. */
  function EvalTeamFilters(f: TeamFilter, t: Team): (r: Result<bool>)
    ensures r.Ok? ==> (r.value <==> TeamMatches(f, t))
    ensures r.Err? ==> r.error == NullPointer && HitsNull(f, t)
    ensures !HitsNull(f, t) ==> r.Ok?
    ensures r.Err? <==>
              || (f.teamName.Some? && t.teamName.None?)
              || (NamePasses(f, t) && f.yearCreated.Some? && t.yearCreated.None?)
              || (NamePasses(f, t) && YearPasses(f, t)
                  && f.coachId.Some? && t.coach.Some? && t.coach.value.id.None?)
              || (NamePasses(f, t) && YearPasses(f, t) && CoachPasses(f, t)
                  && f.playerId.Some? && t.player.Some? && t.player.value.id.None?)
  {
    if f.teamName.Some? && t.teamName.None? then Err(NullPointer)
    else if f.teamName.Some? && !LikeFilter(t.teamName.value, f.teamName) then Ok(false)
    else if f.yearCreated.Some? && t.yearCreated.None? then Err(NullPointer)
    else if f.yearCreated.Some? && t.yearCreated != f.yearCreated then Ok(false)
    else if f.coachId.Some? && t.coach.Some? && t.coach.value.id.None? then Err(NullPointer)
    else if f.coachId.Some? && !(t.coach.Some? && t.coach.value.id == f.coachId) then Ok(false)
    else if f.playerId.Some? && t.player.Some? && t.player.value.id.None? then Err(NullPointer)
    else Ok(f.playerId.None? || (t.player.Some? && t.player.value.id == f.playerId))
  }

  /** The team stream: it throws if the filters throw on any team, and
      otherwise keeps the matching teams in order. */
  function FilterTeams(ts: seq<Team>, f: TeamFilter): (r: Result<seq<Team>>)
    ensures r.Err? <==> exists t :: t in ts && EvalTeamFilters(f, t).Err?
    ensures r.Err? ==> r.error == NullPointer
    ensures r.Ok? ==> r.value == Filter(ts, TeamTest(f))
    decreases |ts|
  {
    if |ts| == 0 then Ok([])
    else
      var head := EvalTeamFilters(f, ts[0]);
      assert ts == [ts[0]] + ts[1..];
      if head.Err? then Err(NullPointer)
      else
        var rest := FilterTeams(ts[1..], f);
        if rest.Err? then rest
        else Ok(if head.value then [ts[0]] + rest.value else rest.value)
  }

  /** `GET /teams`: the response of every team that passes the filters, in
      store order, or the null dereference some filter hits. */
  function GetAllTeams(s: Store, f: TeamFilter): (r: Result<seq<TeamResponse>>)
    ensures r.Err? <==> exists t :: t in FindAllTeams(s) && EvalTeamFilters(f, t).Err?
    ensures r.Err? ==> r.error == NullPointer
    ensures r.Ok? ==> var kept := Filter(FindAllTeams(s), TeamTest(f));
              |r.value| == |kept| && forall i :: 0 <= i < |kept| ==> r.value[i] == TeamToDto(kept[i])
  {
    var kept := FilterTeams(FindAllTeams(s), f);
    if kept.Err? then Err(kept.error)
    else Ok(seq(|kept.value|, i requires 0 <= i < |kept.value| => TeamToDto(kept.value[i])))
  }

  /** With no filter set, every team is listed, in store order. */
  lemma UnfilteredTeams(s: Store)
    ensures var all := FindAllTeams(s); var r := GetAllTeams(s, NoTeamFilter);
            r.Ok? && |r.value| == |all| && forall i :: 0 <= i < |all| ==> r.value[i] == TeamToDto(all[i])
  {
    FilterTeamsUnfiltered(FindAllTeams(s));
  }

  /** With no filter set, the team stream keeps every team. */
  lemma {:induction false} FilterTeamsUnfiltered(ts: seq<Team>)
    ensures FilterTeams(ts, NoTeamFilter) == Ok(ts)
    decreases |ts|
  {
    if |ts| > 0 {
      assert !HitsNull(NoTeamFilter, ts[0]);
      FilterTeamsUnfiltered(ts[1..]);
      assert ts == [ts[0]] + ts[1..];
    }
  }

  /** A team without a coach never matches a set coach filter, and one
      without a player never matches a set player filter. */
  lemma MissingAssociationNeverMatches(f: TeamFilter, t: Team)
    ensures f.coachId.Some? && t.coach.None? ==> EvalTeamFilters(f, t) != Ok(true)
    ensures f.playerId.Some? && t.player.None? ==> EvalTeamFilters(f, t) != Ok(true)
  {
  }

  /** A stored team with no name makes every listing filtered by name fail. */
  lemma NamelessTeamBreaksNameFilter(s: Store, id: int, q: string)
    requires id in s.teams.rows && s.teams.rows[id].teamName.None?
    ensures GetAllTeams(s, TeamFilter(Some(q), None, None, None)) == Err(NullPointer)
  {
    var all := FindAllTeams(s);
    var ids := s.teams.Ids();
    var i :| 0 <= i < |ids| && ids[i] == id;
    assert all[i] in all;
  }

  /** Resolve the request's coach and player ids against the store: the coach
      first, then the player; an id that does not resolve throws. */
  function ResolveReferences(s: Store, req: TeamRequest, team: Team): (r: Result<Team>)
    ensures r.Err? <==> !RowResolves(s, TeamRow(req.coachId, req.playerId, None, None))
    ensures r.Err? && !Resolves(req.coachId, s.coaches.rows) ==>
              r.error == IllegalArgument(CoachNotFound(req.coachId.value))
    ensures r.Err? && Resolves(req.coachId, s.coaches.rows) ==>
              r.error == IllegalArgument(PlayerNotFound(req.playerId.value))
    ensures r.Ok? ==> r.value.teamId == team.teamId && r.value.teamName == team.teamName
                      && r.value.yearCreated == team.yearCreated
    ensures r.Ok? ==> r.value.coach == if req.coachId.Some? then Some(s.coaches.rows[req.coachId.value]) else team.coach
    ensures r.Ok? ==> r.value.player == if req.playerId.Some? then Some(s.players.rows[req.playerId.value]) else team.player
  {
    var withCoach :=
      if req.coachId.None? then Ok(team)
      else match s.coaches.FindById(req.coachId.value)
        case None => Err(IllegalArgument(CoachNotFound(req.coachId.value)))
        case Some(c) => Ok(team.(coach := Some(c)));
    if withCoach.Err? then withCoach
    else if req.playerId.None? then withCoach
    else match s.players.FindById(req.playerId.value)
      case None => Err(IllegalArgument(PlayerNotFound(req.playerId.value)))
      case Some(p) => Ok(withCoach.value.(player := Some(p)))
  }

  /** The row a request should produce: its own fields and the ids it names. */
  function RequestedRow(req: TeamRequest): TeamRow
  {
    TeamRow(req.coachId, req.playerId, req.teamName, req.yearCreated)
  }

  /** In a valid store, the row written for a resolved team holds exactly
      the ids the request supplied. */
  lemma ResolvedRowIsRequested(s: Store, req: TeamRequest, team: Team)
    requires team.coach == None && team.player == None
    requires team.teamName == req.teamName && team.yearCreated == req.yearCreated
    requires ResolveReferences(s, req, team).Ok?
    ensures Valid(s) ==> RowOf(ResolveReferences(s, req, team).value) == RequestedRow(req)
  {
  }

  /** `POST /teams`: a new team from the request's name and year, with the
      supplied coach and player; fails before writing if either is missing. */
  function CreateTeam(s: Store, req: TeamRequest): (r: Reply<TeamResponse>)
    ensures r.body.Err? <==> !RowResolves(s, RequestedRow(req))
    ensures r.body.Err? ==> r.after == s
    ensures r.body.Err? && !Resolves(req.coachId, s.coaches.rows) ==>
              r.body.error == IllegalArgument(CoachNotFound(req.coachId.value))
    ensures r.body.Err? && Resolves(req.coachId, s.coaches.rows) ==>
              r.body.error == IllegalArgument(PlayerNotFound(req.playerId.value))
    ensures r.body.Ok? ==> r.after.players == s.players && r.after.coaches == s.coaches
    ensures r.body.Ok? ==>
              && r.body.value.teamId == Some(s.teams.next)
              && r.body.value.teamName == req.teamName && r.body.value.yearCreated == req.yearCreated
              && (r.body.value.coach.Some? <==> req.coachId.Some?)
              && (r.body.value.player.Some? <==> req.playerId.Some?)
              && (req.coachId.Some? ==> r.body.value.coach == Some(CoachToDto(s.coaches.rows[req.coachId.value])))
              && (req.playerId.Some? ==> r.body.value.player == Some(PlayerToDto(s.players.rows[req.playerId.value])))
    ensures Valid(s) && r.body.Ok? ==>
              && s.teams.next !in s.teams.rows
              && r.after.teams.rows == s.teams.rows[s.teams.next := RequestedRow(req)]
    ensures Valid(s) ==> Valid(r.after)
  {
    var team := TeamToEntity(req);
    var resolved := ResolveReferences(s, req, team);
    if resolved.Err? then Reply(Err(resolved.error), s)
    else
      var saved := SaveTeam(s, resolved.value);
      ResolvedRowIsRequested(s, req, team);
      Reply(Ok(TeamToDto(saved.entity)), saved.store)
  }

  /** `GET /teams/{id}`. */
  function GetTeam(s: Store, id: int): (r: Option<TeamResponse>)
    ensures r.Some? <==> id in s.teams.rows
    ensures r.Some? ==> r.value.teamId == Some(id)
    ensures r.Some? ==> r.value == TeamToDto(Hydrate(s, id, s.teams.rows[id]))
  {
    var t := FindTeamById(s, id);
    if t.Some? then Some(TeamToDto(t.value)) else None
  }

  /** `PUT /teams/{id}`: a fresh entity stored under the path id, so any
      association the request does not supply ends up empty. */
  function UpdateTeam(s: Store, id: int, req: TeamRequest): (r: Reply<TeamResponse>)
    ensures r.body.Err? <==> !RowResolves(s, RequestedRow(req))
    ensures r.body.Err? ==> r.after == s
    ensures r.body.Err? && !Resolves(req.coachId, s.coaches.rows) ==>
              r.body.error == IllegalArgument(CoachNotFound(req.coachId.value))
    ensures r.body.Err? && Resolves(req.coachId, s.coaches.rows) ==>
              r.body.error == IllegalArgument(PlayerNotFound(req.playerId.value))
    ensures r.body.Ok? ==> r.after.players == s.players && r.after.coaches == s.coaches
    ensures r.body.Ok? ==>
              && r.body.value.teamId == Some(id)
              && r.body.value.teamName == req.teamName && r.body.value.yearCreated == req.yearCreated
              && (r.body.value.coach.Some? <==> req.coachId.Some?)
              && (r.body.value.player.Some? <==> req.playerId.Some?)
              && (req.coachId.Some? ==> r.body.value.coach == Some(CoachToDto(s.coaches.rows[req.coachId.value])))
              && (req.playerId.Some? ==> r.body.value.player == Some(PlayerToDto(s.players.rows[req.playerId.value])))
    ensures Valid(s) && r.body.Ok? ==> r.after.teams.rows == s.teams.rows[id := RequestedRow(req)]
    ensures Valid(s) ==> Valid(r.after)
  {
    var team := TeamToEntity(req).(teamId := Some(id));
    var resolved := ResolveReferences(s, req, team);
    if resolved.Err? then Reply(Err(resolved.error), s)
    else
      var saved := SaveTeam(s, resolved.value);
      ResolvedRowIsRequested(s, req, team);
      Reply(Ok(TeamToDto(saved.entity)), saved.store)
  }

  /** `DELETE /teams/{id}`: 404 for an unknown id; otherwise only that team
      goes, and no player or coach is touched. */
  function DeleteTeam(s: Store, id: int): (r: Reply<()>)
    ensures id !in s.teams.rows ==> r.body == Err(NotFound) && r.after == s
    ensures id in s.teams.rows ==> r.body == Ok(())
    ensures r.after.players == s.players && r.after.coaches == s.coaches
    ensures forall k :: k in r.after.teams.rows <==> k in s.teams.rows && k != id
    ensures forall k :: k in r.after.teams.rows ==> r.after.teams.rows[k] == s.teams.rows[k]
    ensures Valid(s) ==> Valid(r.after)
  {
    if !s.teams.ExistsById(id) then Reply(Err(NotFound), s)
    else Reply(Ok(()), s.(teams := s.teams.DeleteById(id)))
  }
}
