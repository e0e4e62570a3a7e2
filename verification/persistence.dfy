/** The relational store: the player, coach and team tables, the join that
    rebuilds a team entity from its row, and the per-entity `save`. */
module Persistence {
  import opened Base
  import opened Model
  import opened Repository

  /** A row of the team table: the coach and the player are foreign keys. */
  datatype TeamRow = TeamRow(
    coachId: Option<int>,
    playerId: Option<int>,
    teamName: Option<string>,
    yearCreated: Option<int>)

  datatype Store = Store(players: Table<Player>, coaches: Table<Coach>, teams: Table<TeamRow>)

  /** What a controller call answers, and the store it leaves behind. */
  datatype Reply<T> = Reply(body: Result<T>, after: Store)

  /** What `save` hands back: the store after the write and the saved entity. */
  datatype Saved<E> = Saved(store: Store, entity: E)

  /** An optional foreign key is either absent or names a row of `rows`. */
  predicate Resolves<V>(ref: Option<int>, rows: map<int, V>)
  {
    ref.Some? ==> ref.value in rows
  }

  predicate RowResolves(s: Store, row: TeamRow)
  {
    Resolves(row.coachId, s.coaches.rows) && Resolves(row.playerId, s.players.rows)
  }

  /** Referential integrity: every team's coach and player exist. The store
      does not enforce it; the controllers have to keep it. */
  ghost predicate ReferencesExist(s: Store)
  {
    forall k :: k in s.teams.rows ==> RowResolves(s, s.teams.rows[k])
  }

  ghost predicate Valid(s: Store)
  {
    && s.players.Valid() && s.coaches.Valid() && s.teams.Valid()
    && (forall k :: k in s.players.rows ==> s.players.rows[k].id == Some(k))
    && (forall k :: k in s.coaches.rows ==> s.coaches.rows[k].id == Some(k))
    && ReferencesExist(s)
  }

  /** A fresh database: three empty tables whose identity columns start at 1. */
  const Empty: Store := Store(Table(map[], 1), Table(map[], 1), Table(map[], 1))

  lemma EmptyValid()
    ensures Valid(Empty)
  {
  }

  /** The foreign key written for an optional coach or player is its id. */
  function CoachKey(c: Option<Coach>): Option<int>
  {
    if c.Some? then c.value.id else None
  }

  function PlayerKey(p: Option<Player>): Option<int>
  {
    if p.Some? then p.value.id else None
  }

  /** The row `save` writes for a team entity. */
  function RowOf(t: Team): TeamRow
  {
    TeamRow(CoachKey(t.coach), PlayerKey(t.player), t.teamName, t.yearCreated)
  }

  /** The eager fetch of a team: its row, with each foreign key replaced by the row it names. */
  function Hydrate(s: Store, id: int, row: TeamRow): (t: Team)
    ensures t.teamId == Some(id)
    ensures t.teamName == row.teamName && t.yearCreated == row.yearCreated
    ensures RowResolves(s, row) ==> (t.coach.Some? <==> row.coachId.Some?)
    ensures RowResolves(s, row) ==> (t.player.Some? <==> row.playerId.Some?)
    ensures t.coach.Some? ==> t.coach.value in s.coaches.rows.Values
    ensures t.player.Some? ==> t.player.value in s.players.rows.Values
  {
    Team(Some(id),
         if row.coachId.Some? then s.coaches.FindById(row.coachId.value) else None,
         if row.playerId.Some? then s.players.FindById(row.playerId.value) else None,
         row.teamName, row.yearCreated)
  }

  /** In a valid store, fetching a team and writing it back gives the same row. */
  lemma HydrateRoundTrip(s: Store, id: int)
    requires Valid(s)
    requires id in s.teams.rows
    ensures RowOf(Hydrate(s, id, s.teams.rows[id])) == s.teams.rows[id]
  {
    assert RowResolves(s, s.teams.rows[id]);
  }

  function FindTeamById(s: Store, id: int): (r: Option<Team>)
    ensures r.Some? <==> id in s.teams.rows
    ensures r.Some? ==> r.value == Hydrate(s, id, s.teams.rows[id])
  {
    if id in s.teams.rows then Some(Hydrate(s, id, s.teams.rows[id])) else None
  }

  /** `findAll` on the team table: every team, fetched, in id order. */
  function FindAllTeams(s: Store): (r: seq<Team>)
    ensures |r| == |s.teams.rows|
    ensures forall i :: 0 <= i < |r| ==>
              var id := s.teams.Ids()[i]; r[i] == Hydrate(s, id, s.teams.rows[id])
  {
    var ids := s.teams.Ids();
    seq(|ids|, i requires 0 <= i < |ids| => Hydrate(s, ids[i], s.teams.rows[ids[i]]))
  }

  /** `save` of a player: an id-less player is inserted under the next
      identity value, a player with an id overwrites (or creates) that row. */
  function SavePlayer(s: Store, p: Player): (r: Saved<Player>)
    ensures r.entity == p.(id := r.entity.id) && r.entity.id.Some?
    ensures p.id.Some? ==> r.entity.id == p.id
    ensures p.id.None? ==> r.entity.id == Some(s.players.next)
    ensures r.store.players.rows == s.players.rows[r.entity.id.value := r.entity]
    ensures r.store.coaches == s.coaches && r.store.teams == s.teams
    ensures Valid(s) ==> Valid(r.store)
    ensures Valid(s) && p.id.None? ==> r.entity.id.value !in s.players.rows
  {
    var id := if p.id.Some? then p.id.value else s.players.next;
    var saved := p.(id := Some(id));
    Saved(s.(players := s.players.Save(id, saved)), saved)
  }

  /** `save` of a coach, as for players. */
  function SaveCoach(s: Store, c: Coach): (r: Saved<Coach>)
    ensures r.entity == c.(id := r.entity.id) && r.entity.id.Some?
    ensures c.id.Some? ==> r.entity.id == c.id
    ensures c.id.None? ==> r.entity.id == Some(s.coaches.next)
    ensures r.store.coaches.rows == s.coaches.rows[r.entity.id.value := r.entity]
    ensures r.store.players == s.players && r.store.teams == s.teams
    ensures Valid(s) ==> Valid(r.store)
    ensures Valid(s) && c.id.None? ==> r.entity.id.value !in s.coaches.rows
  {
    var id := if c.id.Some? then c.id.value else s.coaches.next;
    var saved := c.(id := Some(id));
    Saved(s.(coaches := s.coaches.Save(id, saved)), saved)
  }

  /** `save` of a team: only the row, with the foreign keys of its coach and player, is written. */
  function SaveTeam(s: Store, t: Team): (r: Saved<Team>)
    ensures r.entity == t.(teamId := r.entity.teamId) && r.entity.teamId.Some?
    ensures t.teamId.Some? ==> r.entity.teamId == t.teamId
    ensures t.teamId.None? ==> r.entity.teamId == Some(s.teams.next)
    ensures r.store.teams.rows == s.teams.rows[r.entity.teamId.value := RowOf(t)]
    ensures r.store.players == s.players && r.store.coaches == s.coaches
    ensures Valid(s) && RowResolves(s, RowOf(t)) ==> Valid(r.store)
    ensures Valid(s) && t.teamId.None? ==> r.entity.teamId.value !in s.teams.rows
  {
    var id := if t.teamId.Some? then t.teamId.value else s.teams.next;
    Saved(s.(teams := s.teams.Save(id, RowOf(t))), t.(teamId := Some(id)))
  }
}
